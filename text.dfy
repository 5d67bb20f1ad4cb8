/**
 The string operations the live loop applies to each recognised utterance
 (client.py): `str.strip()`, `str.lower()` and the slice `text[::-1]`.

 `strip()` with no argument removes, at both ends, every character Python's
 `str.isspace` accepts; that set is finite and is written out in IsSpace.
 `lower()` is modelled as ASCII case folding only. The loop compares the
 lowered text with the ASCII literal "exit", and for that comparison ASCII
 folding decides the same: the only non-ASCII characters whose lower-case
 form contains an ASCII letter are U+212A KELVIN SIGN (to 'k', not a letter
 of "exit") and U+0130 (to "i" followed by U+0307, two characters, one of
 them non-ASCII).
 */
module Text {

  /**
   Python's `str.isspace`: the characters `strip()` removes. No visible ASCII
   character is among them; the ideographic space of Japanese text is.
   */
  predicate IsSpace(c: char): (r: bool)
    ensures r ==> !('!' <= c <= '~')
    ensures c == ' ' || c == '\U{3000}' ==> r
  {
    || ('\t' <= c <= '\r')                // tab, line feed, vertical tab, form feed, carriage return
    || ('\U{1C}' <= c <= '\U{1F}')        // file, group, record and unit separators
    || c == ' '
    || c == '\U{85}'                      // next line
    || c == '\U{A0}'                      // no-break space
    || c == '\U{1680}'                    // ogham space mark
    || ('\U{2000}' <= c <= '\U{200A}')    // en quad .. hair space
    || c == '\U{2028}' || c == '\U{2029}' // line and paragraph separators
    || c == '\U{202F}'                    // narrow no-break space
    || c == '\U{205F}'                    // medium mathematical space
    || c == '\U{3000}'                    // ideographic space
  }

  ghost predicate AllSpace(s: string) {
    forall i :: 0 <= i < |s| ==> IsSpace(s[i])
  }

  /** What `strip()` leaves: nothing removable at either end. */
  ghost predicate IsTrimmed(t: string) {
    t == [] || (!IsSpace(t[0]) && !IsSpace(t[|t| - 1]))
  }

  /** `lstrip()`: the longest all-space prefix is dropped. */
  function TrimStart(s: string): (r: string)
    ensures |r| <= |s| && r == s[|s| - |r|..]
    ensures AllSpace(s[..|s| - |r|])
    ensures r == [] || !IsSpace(r[0])
    decreases |s|
  {
    if |s| > 0 && IsSpace(s[0]) then TrimStart(s[1..]) else s
  }

  /** `rstrip()`: the longest all-space suffix is dropped. */
  function TrimEnd(s: string): (r: string)
    ensures |r| <= |s| && r == s[..|r|]
    ensures AllSpace(s[|r|..])
    ensures r == [] || !IsSpace(r[|r| - 1])
    decreases |s|
  {
    if |s| > 0 && IsSpace(s[|s| - 1]) then TrimEnd(s[..|s| - 1]) else s
  }

  /** `strip()` (client.py:53). */
  function Trim(s: string): (r: string)
    ensures IsTrimmed(r)
    ensures |r| <= |s|
  {
    TrimEnd(TrimStart(s))
  }

  /** Dropping all-space characters in front of a string that does not start with one. */
  lemma {:induction false} TrimStartPadded(w: string, u: string)
    requires AllSpace(w)
    requires u == [] || !IsSpace(u[0])
    ensures TrimStart(w + u) == u
    decreases |w|
  {
    if w != [] {
      assert (w + u)[1..] == w[1..] + u;
      TrimStartPadded(w[1..], u);
    }
  }

  /** Dropping all-space characters behind a string that does not end with one. */
  lemma {:induction false} TrimEndPadded(u: string, w: string)
    requires AllSpace(w)
    requires u == [] || !IsSpace(u[|u| - 1])
    ensures TrimEnd(u + w) == u
    decreases |w|
  {
    if w != [] {
      assert (u + w)[..|u + w| - 1] == u + w[..|w| - 1];
      TrimEndPadded(u, w[..|w| - 1]);
    }
  }

  /**
   `strip()` ignores surrounding white space: padding a trimmed string with
   white space on either side and stripping it again gives the string back.
   */
  lemma TrimPadded(w1: string, t: string, w2: string)
    requires AllSpace(w1) && AllSpace(w2) && IsTrimmed(t)
    ensures Trim(w1 + t + w2) == t
  {
    assert w1 + t + w2 == w1 + (t + w2);
    if t == [] {
      assert AllSpace(t + w2);
      TrimStartPadded(w1 + t + w2, []);
      assert w1 + t + w2 + [] == w1 + t + w2;
    } else {
      TrimStartPadded(w1, t + w2);
      TrimEndPadded(t, w2);
    }
  }

  /** Stripping is idempotent. */
  lemma TrimIdempotent(s: string)
    ensures Trim(Trim(s)) == Trim(s)
  {
    var t := Trim(s);
    assert [] + t + [] == t;
    TrimPadded([], t, []);
  }

  /** Stripping yields the empty string exactly on all-space input. */
  lemma TrimEmptyIff(s: string)
    ensures Trim(s) == [] <==> AllSpace(s)
  {
    if AllSpace(s) {
      TrimStartPadded(s, []);
      assert s + [] == s;
    }
  }

  predicate IsUpper(c: char) {
    'A' <= c <= 'Z'
  }

  /** Two characters that are equal, or the upper- and lower-case form of one ASCII letter. */
  ghost predicate SameIgnoringCase(a: char, b: char) {
    || a == b
    || (IsUpper(a) && b as int == a as int + 32)
    || (IsUpper(b) && a as int == b as int + 32)
  }

  /**
   ASCII case folding of one character: the result is the same letter
   ignoring case and is never upper case, which determines it.
   */
  function LowerChar(c: char): (r: char)
    ensures !IsUpper(r)
    ensures SameIgnoringCase(c, r)
  {
    if IsUpper(c) then (c as int + 32) as char else c
  }

  /** `lower()`, restricted to ASCII letters (see the module comment). */
  function Lower(s: string): (r: string)
    ensures |r| == |s|
    ensures forall i :: 0 <= i < |s| ==> !IsUpper(r[i]) && SameIgnoringCase(s[i], r[i])
  {
    seq(|s|, i requires 0 <= i < |s| => LowerChar(s[i]))
  }

  /** Lower-casing a lower-cased string changes nothing. */
  lemma LowerIdempotent(s: string)
    ensures Lower(Lower(s)) == Lower(s)
  {
  }

  /** `s[::-1]`. */
  function Reverse(s: string): (r: string)
    ensures |r| == |s|
  {
    if s == [] then [] else Reverse(s[1..]) + [s[0]]
  }

  lemma {:induction false} ReverseAt(s: string, k: nat)
    requires k < |s|
    ensures Reverse(s)[k] == s[|s| - 1 - k]
    decreases |s|
  {
    if k < |s| - 1 {
      ReverseAt(s[1..], k);
    }
  }

  /** Reversing twice gives the string back. */
  lemma ReverseInvolutive(s: string)
    ensures Reverse(Reverse(s)) == s
  {
    var r := Reverse(s);
    forall k | 0 <= k < |s|
      ensures Reverse(r)[k] == s[k]
    {
      ReverseAt(r, k);
      ReverseAt(s, |s| - 1 - k);
    }
  }
}
