/**
 The live session loop of client.py (client.py:41-85), over a finite
 sequence of recognition outcomes instead of the microphone.

 Each iteration takes one outcome: an unrecognised utterance is skipped, an
 utterance whose stripped, lower-cased text is "exit" ends the loop, and
 every other one is classed by the ASCII heuristic, turned into an
 instruction for the agent, and answered with the simulated translation,
 the reversed text, spoken in the target language's voice.
 */
module LiveLoop {
  import opened Text
  import opened Language

  /** What the speech recogniser returns for one utterance (client.py:47-51). */
  datatype Recog = Unknown | Heard(text: string)

  /** One utterance once classified (client.py:53-66). */
  datatype Utterance = Utterance(text: string, source: Lang, target: Lang, voice: string, instruction: string)

  /**
   What one translated utterance produces: the instruction shown on the
   console (client.py:68) and the text spoken with the given voice code
   (client.py:84-85).
   */
  datatype Turn = Turn(instruction: string, spoken: string, voice: string)

  /** The outcome of one iteration of the loop. */
  datatype Step = Skip | Exit | Emit(turn: Turn)

  /** The sixteen spellings of "exit" in any mix of letter case. */
  predicate IsExitSpelling(t: string) {
    |t| == 4 && forall k :: 0 <= k < 4 ==> t[k] == "exit"[k] || t[k] == "EXIT"[k]
  }

  /**
   `text.lower() == "exit"` (client.py:54): the exit test accepts exactly the
   case variants of "exit".
   */
  predicate IsExit(t: string): (r: bool)
    ensures r <==> IsExitSpelling(t)
  {
    if IsExitSpelling(t) then
      assert Lower(t) == "exit";
      true
    else
      Lower(t) == "exit"
  }

  /** Classification, language pair, voice and instruction for trimmed text (client.py:59-66). */
  function Prepare(t: string): (u: Utterance)
    ensures u.text == t
    ensures u.source == English <==> forall i :: 0 <= i < |t| ==> IsAsciiChar(t[i])
    ensures u.target != u.source
    ensures u.voice == VoiceCode(u.target)
    ensures u.instruction == Instruction(t, u.source, u.target)
  {
    var source := Classify(t);
    var target := Target(source);
    Utterance(t, source, target, TtsCode(source), Instruction(t, source, target))
  }

  /** The simulated translation (client.py:84-85): the reversed text, in the target's voice. */
  function Simulate(u: Utterance): (o: Turn)
    ensures |o.spoken| == |u.text| && Reverse(o.spoken) == u.text
    ensures o.instruction == u.instruction && o.voice == u.voice
  {
    ReverseInvolutive(u.text);
    Turn(u.instruction, Reverse(u.text), u.voice)
  }

  /** One iteration of the loop (client.py:47-85). */
  function Decide(r: Recog): (step: Step)
    ensures r.Unknown? ==> step == Skip
    ensures r.Heard? ==> step != Skip
    ensures r.Heard? ==> (step == Exit <==> IsExitSpelling(Trim(r.text)))
    ensures step.Emit? ==> Reverse(step.turn.spoken) == Trim(r.text)
    ensures step.Emit? ==>
      var source := Classify(Trim(r.text));
      && step.turn.instruction == Instruction(Trim(r.text), source, Target(source))
      && step.turn.voice == VoiceCode(Target(source))
  {
    match r
    case Unknown => Skip
    case Heard(s) =>
      var t := Trim(s);
      if IsExit(t) then Exit else Emit(Simulate(Prepare(t)))
  }

  /** The step each recognition outcome leads to. */
  function Steps(inputs: seq<Recog>): (steps: seq<Step>)
    ensures |steps| == |inputs|
    decreases |inputs|
  {
    if inputs == [] then [] else [Decide(inputs[0])] + Steps(inputs[1..])
  }

  /** Step `k` is the decision on outcome `k`. */
  lemma {:induction false} StepAt(inputs: seq<Recog>, k: nat)
    requires k < |inputs|
    ensures Steps(inputs)[k] == Decide(inputs[k])
    decreases k
  {
    if k > 0 {
      StepAt(inputs[1..], k - 1);
    }
  }

  /** The step of outcome `k`, spelled out as the loop body computes it. */
  lemma StepCases(inputs: seq<Recog>, k: nat)
    requires k < |inputs|
    ensures inputs[k].Unknown? ==> Steps(inputs)[k] == Skip
    ensures inputs[k].Heard? && IsExit(Trim(inputs[k].text)) ==> Steps(inputs)[k] == Exit
    ensures inputs[k].Heard? && !IsExit(Trim(inputs[k].text)) ==>
      Steps(inputs)[k] == Emit(Simulate(Prepare(Trim(inputs[k].text))))
  {
    StepAt(inputs, k);
  }

  /** Each outcome is decided on its own. */
  lemma {:induction false} StepsAppend(a: seq<Recog>, b: seq<Recog>)
    ensures Steps(a + b) == Steps(a) + Steps(b)
    decreases |a|
  {
    if a == [] {
      assert a + b == b;
    } else {
      assert (a + b)[0] == a[0] && (a + b)[1..] == a[1..] + b;
      StepsAppend(a[1..], b);
    }
  }

  /**
   The loop as a state machine over the steps: the turns produced, in order,
   and whether an exit step ended it (false when the input ran out first).
   */
  function Outcome(steps: seq<Step>): (r: (seq<Turn>, bool))
    ensures |r.0| <= |steps|
    decreases |steps|
  {
    if steps == [] then ([], false)
    else
      match steps[0]
      case Skip => Outcome(steps[1..])
      case Exit => ([], true)
      case Emit(turn) =>
        var rest := Outcome(steps[1..]);
        ([turn] + rest.0, rest.1)
  }

  /** The live loop over a sequence of recognition outcomes. */
  function Run(inputs: seq<Recog>): (r: (seq<Turn>, bool))
    ensures |r.0| <= |inputs|
  {
    Outcome(Steps(inputs))
  }

  /** `while True` over the recognition outcomes, with `continue` and `break` (client.py:41-85). */
  method RunLoop(inputs: seq<Recog>) returns (outputs: seq<Turn>, exited: bool)
    ensures (outputs, exited) == Run(inputs)
  {
    ghost var steps := Steps(inputs);
    outputs, exited := [], false;
    var i := 0;
    assert steps[i..] == steps && outputs + Outcome(steps).0 == Outcome(steps).0;
    while i < |inputs|
      invariant 0 <= i <= |inputs|
      invariant Outcome(steps) == (outputs + Outcome(steps[i..]).0, Outcome(steps[i..]).1)
      invariant !exited
    {
      var recog := inputs[i];
      StepCases(inputs, i);
      OutcomeAt(steps, i);
      ghost var step, rest := steps[i], Outcome(steps[i + 1..]);
      i := i + 1;
      if recog.Unknown? {
        assert step == Skip;
        continue;
      }
      var text := Trim(recog.text);
      if IsExit(text) {
        assert step == Exit;
        assert outputs + [] == outputs;
        exited := true;
        break;
      }
      var utterance := Prepare(text);
      var turn := Simulate(utterance);
      assert step == Emit(turn);
      AppendAssoc(outputs, [turn], rest.0);
      outputs := outputs + [turn];
    }
    if !exited {
      assert steps[i..] == [] && outputs + [] == outputs;
    }
  }

  /** Concatenation is associative (stated once, away from the loop's context). */
  lemma AppendAssoc<T>(a: seq<T>, b: seq<T>, c: seq<T>)
    ensures a + b + c == a + (b + c)
  {
  }

  /** The state machine's answer on the steps from `i` on, by the kind of step `i`. */
  lemma OutcomeAt(steps: seq<Step>, i: nat)
    requires i < |steps|
    ensures steps[i] == Skip ==> Outcome(steps[i..]) == Outcome(steps[i + 1..])
    ensures steps[i] == Exit ==> Outcome(steps[i..]) == ([], true)
    ensures steps[i].Emit? ==>
      Outcome(steps[i..]) == ([steps[i].turn] + Outcome(steps[i + 1..]).0, Outcome(steps[i + 1..]).1)
  {
    assert steps[i..][0] == steps[i] && steps[i..][1..] == steps[i + 1..];
  }

  /** The index of the first exit step, or the number of steps if there is none. */
  function FirstExit(steps: seq<Step>): (n: nat)
    ensures n <= |steps|
    ensures forall k :: 0 <= k < n ==> steps[k] != Exit
    ensures n < |steps| ==> steps[n] == Exit
    decreases |steps|
  {
    if steps == [] || steps[0] == Exit then 0
    else 1 + FirstExit(steps[1..])
  }

  /** The turns of the emitting steps, one each, in order. */
  function Turns(steps: seq<Step>): (r: seq<Turn>)
    ensures |r| <= |steps|
    decreases |steps|
  {
    if steps == [] then []
    else (if steps[0].Emit? then [steps[0].turn] else []) + Turns(steps[1..])
  }

  /** Turns come out in input order: the turns of a concatenation are concatenated. */
  lemma {:induction false} TurnsAppend(a: seq<Step>, b: seq<Step>)
    ensures Turns(a + b) == Turns(a) + Turns(b)
    decreases |a|
  {
    if a != [] {
      assert (a + b)[1..] == a[1..] + b;
      TurnsAppend(a[1..], b);
    } else {
      assert a + b == b;
    }
  }

  /**
   The state machine yields one turn per emitting step before the first exit,
   in order, and reports an exit exactly when there is one.
   */
  lemma {:induction false} OutcomeReference(steps: seq<Step>)
    ensures Outcome(steps).0 == Turns(steps[..FirstExit(steps)])
    ensures Outcome(steps).1 <==> FirstExit(steps) < |steps|
    decreases |steps|
  {
    if steps != [] && steps[0] != Exit {
      OutcomeReference(steps[1..]);
      assert steps[..FirstExit(steps)][1..] == steps[1..][..FirstExit(steps[1..])];
    }
  }

  /**
   The loop produces one turn for each recognised non-exit utterance before
   the first exit utterance, in input order, and ends with an exit exactly
   when some utterance is one.
   */
  lemma RunReference(inputs: seq<Recog>)
    ensures Run(inputs).0 == Turns(Steps(inputs)[..FirstExit(Steps(inputs))])
    ensures Run(inputs).1 <==> exists k :: 0 <= k < |inputs| && Decide(inputs[k]) == Exit
  {
    OutcomeReference(Steps(inputs));
    forall k | 0 <= k < |inputs| ensures Steps(inputs)[k] == Decide(inputs[k]) {
      StepAt(inputs, k);
    }
  }

  lemma {:induction false} OutcomeSkips(p: seq<Step>, q: seq<Step>)
    ensures Outcome(p + [Skip] + q) == Outcome(p + q)
    decreases |p|
  {
    if p == [] {
      assert p + [Skip] + q == [Skip] + q && ([Skip] + q)[1..] == q && p + q == q;
    } else {
      assert (p + [Skip] + q)[1..] == p[1..] + [Skip] + q;
      assert (p + q)[1..] == p[1..] + q;
      OutcomeSkips(p[1..], q);
    }
  }

  /**
   A recognition miss anywhere produces nothing and stops nothing: the loop
   goes on with the next utterance as if the miss had not happened.
   */
  lemma RunSkipsMisses(p: seq<Recog>, q: seq<Recog>)
    ensures Run(p + [Unknown] + q) == Run(p + q)
  {
    var skip := Decide(Unknown);
    assert Steps([Unknown]) == [skip];
    StepsAppend(p + [Unknown], q);
    StepsAppend(p, [Unknown]);
    StepsAppend(p, q);
    OutcomeSkips(Steps(p), Steps(q));
  }

  lemma {:induction false} OutcomeStops(p: seq<Step>, q: seq<Step>)
    requires Outcome(p).1
    ensures Outcome(p + q) == Outcome(p)
    decreases |p|
  {
    assert p != [];
    assert (p + q)[1..] == p[1..] + q;
    if p[0] != Exit {
      OutcomeStops(p[1..], q);
    }
  }

  /** Nothing after the first exit utterance is processed. */
  lemma RunStopsAtExit(p: seq<Recog>, q: seq<Recog>)
    requires Run(p).1
    ensures Run(p + q) == Run(p)
  {
    StepsAppend(p, q);
    OutcomeStops(Steps(p), Steps(q));
  }

  /**
   An utterance whose text is a case variant of "exit", with any white space
   around it, ends the loop at once and yields no turn.
   */
  lemma ExitUtterance(w1: string, v: string, w2: string, rest: seq<Recog>)
    requires AllSpace(w1) && AllSpace(w2) && IsExitSpelling(v)
    ensures Decide(Heard(w1 + v + w2)) == Exit
    ensures Run([Heard(w1 + v + w2)] + rest) == ([], true)
  {
    assert !IsSpace(v[0]) && !IsSpace(v[3]);
    TrimPadded(w1, v, w2);
    assert Steps([Heard(w1 + v + w2)] + rest)[0] == Exit;
  }

  /** Reversal keeps every character, so it keeps the classification. */
  lemma ClassifyReverse(t: string)
    ensures Classify(Reverse(t)) == Classify(t)
  {
    var r := Reverse(t);
    forall k | 0 <= k < |t| ensures r[k] == t[|t| - 1 - k] && t[k] == r[|t| - 1 - k] {
      ReverseAt(t, k);
      ReverseAt(t, |t| - 1 - k);
    }
    if Classify(t) == English {
      forall k | 0 <= k < |r| ensures IsAsciiChar(r[k]) {
        ReverseAt(t, k);
      }
    }
    if Classify(r) == English {
      forall k | 0 <= k < |t| ensures IsAsciiChar(t[k]) {
        ReverseAt(t, |t| - 1 - k);
      }
    }
  }

  /**
   The simulated reply stays in the language it was heard in (it is only
   reversed), while the voice is always that of the other language.
   */
  lemma SimulatedReplyLanguage(s: string)
    requires Decide(Heard(s)).Emit?
    ensures Classify(Decide(Heard(s)).turn.spoken) == Classify(Trim(s))
    ensures Decide(Heard(s)).turn.voice == VoiceCode(Target(Classify(Trim(s))))
  {
    ClassifyReverse(Trim(s));
  }
}
