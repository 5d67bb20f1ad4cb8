/**
 The language heuristics of the live loop (client.py:59-66): the ASCII test
 that classes an utterance, the complementary language pair, the voice code
 for speech output and the instruction string prepared for the agent.
 */
module Language {

  datatype Lang = English | Japanese

  /** The name the instruction uses for a language (client.py:61-62). */
  function Name(l: Lang): string {
    match l
    case English => "English"
    case Japanese => "Japanese"
  }

  /** The speech-output code of a language. */
  function VoiceCode(l: Lang): string {
    match l
    case English => "en"
    case Japanese => "ja"
  }

  /** `ord(c) < 128` */
  predicate IsAsciiChar(c: char) {
    (c as int) < 128
  }

  /**
   `all(ord(c) < 128 for c in text)` picks English, anything else Japanese
   (client.py:60-61); the scan stops at the first non-ASCII character.
   */
  function Classify(t: string): (l: Lang)
    ensures l == English <==> forall i :: 0 <= i < |t| ==> IsAsciiChar(t[i])
    decreases |t|
  {
    if t == [] then English
    else if IsAsciiChar(t[0]) then Classify(t[1..])
    else Japanese
  }

  /** The target language is the other one of the pair (client.py:62). */
  function Target(source: Lang): (target: Lang)
    ensures target != source
  {
    if source == English then Japanese else English
  }

  /** The voice code for speech output (client.py:63): always that of the target. */
  function TtsCode(source: Lang): (code: string)
    ensures code == VoiceCode(Target(source))
    ensures code != VoiceCode(source)
  {
    if source == English then "ja" else "en"
  }

  const Opening: string := "Translate '"

  /** `f"Translate '{text}' from {source_lang} to {target_lang}."` (client.py:66) */
  function Instruction(t: string, source: Lang, target: Lang): (r: string)
    ensures |r| == |Opening| + |t| + 12 + |Name(source)| + |Name(target)|
    ensures r[..|Opening|] == Opening
    ensures r[|Opening|..|Opening| + |t|] == t
    ensures r[|Opening| + |t|..] == "' from " + Name(source) + " to " + Name(target) + "."
  {
    var tail := "' from " + Name(source) + " to " + Name(target) + ".";
    var r := Opening + t + tail;
    assert r[..|Opening|] == Opening && r[|Opening|..|Opening| + |t|] == t;
    assert r[|Opening| + |t|..] == tail;
    r
  }

  /**
   For the complementary pairs the loop uses, the instruction determines both
   the quoted text and the source language.
   */
  lemma InstructionInjective(t1: string, s1: Lang, t2: string, s2: Lang)
    requires Instruction(t1, s1, Target(s1)) == Instruction(t2, s2, Target(s2))
    ensures t1 == t2 && s1 == s2
  {
    var r := Instruction(t1, s1, Target(s1));
    assert |t1| == |t2|;
    assert t1 == r[|Opening|..|Opening| + |t1|] == t2;
    // the first letter of the source name sits just after "' from "
    assert r[|Opening| + |t1| + 7] == Name(s1)[0];
    assert r[|Opening| + |t2| + 7] == Name(s2)[0];
  }
}
