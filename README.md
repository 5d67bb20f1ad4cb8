# Live bilingual translator: the per-utterance loop

This project models the live session loop of the FISTA voice translator
client (`client.py`). The loop takes one recognised utterance per iteration
and acts on it:

- An utterance the speech recogniser could not understand is skipped.
- Otherwise the text is stripped of white space. If its lower-case form is
  `"exit"`, the loop ends.
- Any other utterance is classed as English when every code point is below
  128, and as Japanese otherwise. The target language and the voice code are
  the complementary pair: English goes to Japanese with voice `"ja"`, and
  Japanese goes to English with voice `"en"`.
- The loop then builds the instruction `Translate '<text>' from <source> to <target>.`
- As written, the code does not send that instruction to the agent. It
  simulates the reply: it prints the reversed text and speaks it in the
  target language's voice.

The project has three modules:

- `Text` (`text.dfy`): Python's `strip()` with its full white-space set,
  `lower()` as ASCII folding, and the reversal `s[::-1]`.
- `Language` (`language.dfy`): the ASCII classification, the language pair,
  the voice code and the instruction string.
- `LiveLoop` (`live_loop.dfy`): the per-utterance decision `Decide`, the loop
  as a state machine over per-iteration steps (`Outcome`, `Run`), and the
  imperative loop `RunLoop`. `RunLoop` keeps the source's `while` with
  `continue` and `break`, and it is proved equal to `Run`.

The microphone is replaced by a finite sequence of recognition outcomes
(`Unknown` or `Heard(text)`). `RunLoop` returns the turns produced and
whether an exit utterance ended the loop. The flag is false when the input
ran out first. Each turn holds the instruction shown on the console, the
spoken text and the voice code.

The comments in the loop body (client.py:70-83) describe a round-trip
through the translation agent for each instruction. As written, the code
does not perform it and simulates the reply instead (client.py:84-85). The
model follows the code.

As written, the program fails before the loop starts: client.py:37 calls
`run_agent_interaction()` without its required argument. The model describes
the loop as it would run once that call is fixed.

## Model

| member | source | states |
|---|---|---|
| `Text.TrimStart` | client.py:53 | the result is a suffix of the input, everything dropped is white space, and the result is empty or starts with a non-space character |
| `Text.TrimEnd` | client.py:53 | the result is a prefix of the input, everything dropped is white space, and the result is empty or ends with a non-space character |
| `Text.Trim` | client.py:53 | `strip()` never grows the text and leaves no white space at either end |
| `Text.TrimPadded` | client.py:53 | stripping a trimmed text padded with any white space on both sides gives the text back, so surrounding white space is ignored |
| `Text.TrimIdempotent` | client.py:53 | stripping twice is the same as stripping once |
| `Text.TrimEmptyIff` | client.py:53 | stripping yields the empty string exactly when the input is all white space |
| `Text.IsSpace` | client.py:53 | the characters `strip()` removes include the ASCII space and the ideographic space U+3000, and no visible ASCII character |
| `Text.LowerChar` | client.py:54 | the folded character is never an upper-case ASCII letter, and it is the same character ignoring ASCII case; these two facts determine it |
| `Text.Lower` | client.py:54 | lower-casing keeps the length, and each position holds a character that is not upper case and equals the input's character ignoring case |
| `Text.LowerIdempotent` | client.py:54 | lower-casing twice is the same as lower-casing once |
| `Text.Reverse` | client.py:84 | the reversal has the same length as the text |
| `Text.ReverseAt` | client.py:84 | position k of the reversal holds the character at position length-1-k |
| `Text.ReverseInvolutive` | client.py:84-85 | reversing the spoken text again gives back the trimmed text |
| `Language.Classify` | client.py:60-61 | the text is English exactly when every character's code point is below 128, and Japanese otherwise, so the empty text is English |
| `Language.Target` | client.py:61-62 | the target language always differs from the source language |
| `Language.TtsCode` | client.py:63 | the voice code is always the target language's code ("ja" for English input, "en" for Japanese input) and never the source language's |
| `Language.Instruction` | client.py:66 | the instruction is `Translate '` + text + `' from <source> to <target>.` and holds the text verbatim at offset 11 |
| `Language.InstructionInjective` | client.py:61-66 | for the complementary pairs the loop uses, two equal instructions come from the same text and the same source language |
| `LiveLoop.IsExit` | client.py:54 | `text.lower() == "exit"` holds exactly for the sixteen upper/lower-case spellings of "exit" |
| `LiveLoop.Prepare` | client.py:59-66 | the source is English iff the text is all ASCII, the target differs from it, the voice is the target's code, and the instruction is the full `Translate '<text>' from <source> to <target>.` string for that pair |
| `LiveLoop.Simulate` | client.py:84-85 | the spoken text has the text's length and reverses back to it, voiced with the utterance's voice code |
| `LiveLoop.Decide` | client.py:47-85 | a recognition miss is skipped; recognised text exits exactly when its stripped form spells "exit"; any output reverses back to the stripped text, carries the instruction for the stripped text and its classified language pair, and uses the target language's voice |
| `LiveLoop.Outcome` | client.py:41-85 | the loop over per-iteration steps yields at most one turn per step |
| `LiveLoop.Run` | client.py:41-85 | the loop yields at most one turn per recognition outcome |
| `LiveLoop.RunLoop` | client.py:41-85 | the `while` loop with `continue` on a miss and `break` on exit returns the same turns and the same exit flag as `Run` |
| `LiveLoop.FirstExit` | client.py:54-57 | the index of the first exit step: no step before it exits, and the step at it does |
| `LiveLoop.Turns` | client.py:84-85 | at most one turn per step |
| `LiveLoop.TurnsAppend` | client.py:41-85 | turns come out in input order: the turns of a concatenation are the concatenated turns |
| `LiveLoop.OutcomeReference` | client.py:41-85 | the loop's turns are the turns of the steps before the first exit, and it reports an exit exactly when one exists |
| `LiveLoop.RunReference` | client.py:41-85 | one turn for each recognised non-exit utterance before the first exit, in order; the loop exits iff some utterance is an exit utterance |
| `LiveLoop.OutcomeSkips` | client.py:49-51 | a skip step anywhere changes neither the turns nor the exit flag |
| `LiveLoop.RunSkipsMisses` | client.py:47-51 | a recognition miss anywhere produces no turn and does not stop the loop |
| `LiveLoop.OutcomeStops` | client.py:54-57 | once the steps contain an exit, appending more steps changes nothing |
| `LiveLoop.RunStopsAtExit` | client.py:54-57 | utterances after the first exit utterance are never processed |
| `LiveLoop.ExitUtterance` | client.py:53-57 | any case variant of "exit" with any white space around it ends the loop at once with no turn for it |
| `LiveLoop.ClassifyReverse` | client.py:84 | reversing text keeps its classification |
| `LiveLoop.SimulatedReplyLanguage` | client.py:60-85 | the simulated reply stays in the language it was heard in, yet it is voiced in the other language |

## Left out

- Text.Lower: folds only ASCII letters, while Python's `lower()` uses the full Unicode mapping. For the one use, the comparison with `"exit"`, both decide the same. The only non-ASCII characters whose lower-case form contains an ASCII letter are U+212A KELVIN SIGN (to `k`) and U+0130 (to `i` plus U+0307, two characters).
- Audio input: the microphone, the ambient-noise calibration and the speech recogniser (client.py:31-32, 42-48) are I/O. The recogniser's result is an input of the model (`Recog`).
- Speech output: `speak_text` (client.py:17-28) saves an MP3 through gTTS and starts a player process. The model records the spoken text and the voice code in each `Turn`.
- Console messages: the start banner, the "could not understand" notice and the farewell (client.py:34, 43, 50, 55) are not modelled. The instruction line (client.py:68) is kept in `Turn.instruction`. The printed simulated reply (client.py:84) is the same text as `Turn.spoken`.
- Background agent task: the task started at client.py:37, the one-second wait at client.py:39 and the cancellation at client.py:56 are concurrency concerns and are not modelled.
- Dead code: `single_run` (client.py:74-79) is defined but never called.
- The real agent round-trip: the comments at client.py:70-83 describe it, and the code does not perform it (client.py:84-85). The import at client.py:72 has no effect on the loop. translator.py and translator_server.py (agent orchestration, subprocess tool server, HTTP translation API) are not part of this model.
- Errors that end the program: any recogniser exception other than `UnknownValueError` (for example `sr.RequestError`, client.py:48-51) and any failure inside `speak_text` (client.py:19-22) propagate out of the loop and end the program. The model has no such outcome: `Recog` has only `Unknown` and `Heard`, and speech output always succeeds.
- Background agent task at start-up: client.py:37 passes no argument to `run_agent_interaction`, while translator.py:36 requires `initial_input`. The call raises `TypeError`, so, as written, the loop is never reached. The model is the loop as it runs once that call is fixed.
- `KeyboardInterrupt` handling (client.py:87-91) is an external interrupt and is not modelled.
- LiveLoop.RunLoop: runs over a finite sequence of recognition outcomes, while the source's `while True` runs until an exit utterance or an interrupt. Running out of input is reported as `exited == false`.
- main.py, models.py and async_tasks.py are sample code unrelated to the loop.
