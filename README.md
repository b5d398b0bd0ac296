# Token-by-token anonymizer, modelled in Dafny

The repository is a small desktop tool, plus a command-line sandbox script. It anonymizes a text with a local language model. Both versions do it with the same loop:

- The input is cut into tokens, and each token is turned back into its own text fragment.
- For every fragment, the model is asked for exactly one next token. The prompt is a fixed few-shot preamble followed by the original fragments seen so far.
- If the predicted token, once stripped of whitespace, starts with `*`, the fragment is masked. A run of masked fragments produces a single marker.
- Otherwise the original fragment is copied to the output.
- The fragment is always appended to the model's context, masked or not.

The desktop app (`main.py`) writes the literal marker `***`. The sandbox (`cli_sandbox.py`) writes the predicted token itself. The model keeps both behaviours through a `Variant` parameter (`Gui` or `Cli`) rather than merging them.

## Files

- `text.dfy` (module `Text`) holds the parts of Python's `str` the loop relies on:
  - `strip()`, over the exact set of characters that `str.isspace()` accepts;
  - the test `strip().startswith("*")`, and the simpler predicate `IsPlaceholder` it is proved equal to;
  - `"".join`;
  - reading a text back from between a fixed prefix and suffix (`Unwrap`), which recovers the input from a prompt.
- `redaction.dfy` (module `Redaction`) holds the shared loop:
  - the specification `Redact`, a fold of `Step` over the fragments;
  - a reference reading of the output as a sequence of kept and masked units (`Units`);
  - the oracle's replies and the prompts;
  - the progress snapshots;
  - the imperative method `RedactionLoop`, with loop invariants tying its four variables, its snapshots and its ghost prompt trace to the specification of the fragments processed so far.
- `anonymizer.dfy` (module `Anonymizer`) holds `process_text`. It covers the two early warnings (no model file, no text after `strip()`) and then runs the loop with the literal marker.
- `sandbox.dfy` (module `Sandbox`) holds the sandbox script with the predicted-token marker, plus a worked example on its fixed sentence.

The model oracle `create_completion` is a function parameter, `string -> Reply`. Its results:

- `Token(t)`: the single predicted token.
- `Raised`: the call threw. This ends the run where the app's `except` handler would take over.

Tokenizing and detokenizing become a parameter `fragmentsOf: string -> Option<seq<string>>`. It yields `None` when some token is not valid UTF-8 on its own, so that `decode("utf-8")` raises (main.py:131, cli_sandbox.py:20). The app then reaches its error handler with no model call (main.py:166-167), and the script stops.

Because every prompt is built from original fragments only, the replies depend on the preamble, the fragments and the oracle, never on what was masked (`Replies`). The loop's behaviour is therefore a pure function of those replies.

The number of output units is at most the number of steps, not equal to it: a run of masked fragments yields one marker unit (`Units`, `UnitsNoAdjacentMasks`).

## Model

The lemmas `RedactExtend`, `LoopStep`, `PromptsExtend` and `RenderAppend` in `Redaction` are proof helpers that unfold one step of a definition, and have no row below.

| member | source | states |
|---|---|---|
| Text.LStripSpec | main.py:149 | `lstrip` removes only whitespace, keeps a suffix of the input, and what it keeps is empty or does not start with whitespace |
| Text.RStripSpec | main.py:149 | `rstrip` removes only whitespace, keeps a prefix of the input, and what it keeps is empty or does not end with whitespace |
| Text.PlaceholderIff | main.py:149 | `predicted.strip().startswith("*")` holds exactly when the first non-whitespace character is `*` (both directions) |
| Text.StripEmptyIff | main.py:103-106 | the stripped input is empty exactly when the widget text is all whitespace |
| Redaction.InputOf | main.py:121-127 | whenever an input text is read back out of a prompt, that input builds exactly this prompt |
| Redaction.InputOfPromptFor | main.py:121-127 | the input text appears verbatim in its prompt and is recovered from it unchanged |
| Redaction.PromptForInjective | main.py:121-127 | two different input texts never share a prompt |
| Redaction.Prompts | main.py:138-140 | `n` steps send exactly `n` prompts |
| Redaction.PromptsAre | main.py:139-140 | prompt `i` is the preamble followed by the concatenation of the first `i` original fragments, so a masked fragment still enters the context and its marker never does |
| Redaction.ReplyAt | main.py:139-145 | each reply is the token the oracle gives for that step's prompt, and the replies stop before the last fragment only where the next call raises |
| Redaction.Replies | main.py:138 | there is at most one reply per fragment |
| Redaction.Step | main.py:148-158 | one step advances the index by one, appends the original fragment to the context, only extends the output, and sets the flag to whether the prediction is a placeholder |
| Redaction.Redact | main.py:133-158 | after the loop over `n` fragments the index is `n`, and the flag says whether the last prediction was a placeholder |
| Redaction.RedactConsumed | main.py:157 | the context accumulated by the loop is the concatenation of all original fragments, whatever the oracle answered |
| Redaction.KeptStep | main.py:153-155 | a non-placeholder prediction appends the current original fragment unchanged and clears the flag |
| Redaction.OpenStep | main.py:149-152 | a placeholder prediction with the flag clear appends exactly one marker (`***` in the app, the predicted token in the sandbox) and sets the flag |
| Redaction.AbsorbStep | main.py:150 | a placeholder prediction with the flag set appends nothing and keeps the flag |
| Redaction.Units | main.py:148-155 | the reference units are no more than the fragments, and the last unit is a marker exactly when the last prediction was a placeholder |
| Redaction.RedactIsUnits | main.py:148-155 | the loop's output is the rendering of the reference units, and its flag is "the output ends in a marker" |
| Redaction.UnitsNoAdjacentMasks | main.py:150-152 | no marker unit is ever immediately followed by another marker unit |
| Redaction.MaskedRuns | cli_sandbox.py:51-54 | the markers in the output are exactly one per maximal run of placeholder predictions, each made from the prediction that opens the run |
| Redaction.RunMarkers | cli_sandbox.py:51-54 | there are at most as many runs as predictions; in the app every marker is `***`, and in the sandbox every marker is itself a placeholder token |
| Redaction.KeptFragments | main.py:153-155 | the kept units are exactly the fragments whose prediction was not a placeholder, in order |
| Redaction.NoPlaceholderKeepsText | cli_sandbox.py:51-57 | if no prediction is a placeholder, the output is the concatenation of all fragments |
| Redaction.OnlyMarkersDiffer | cli_sandbox.py:50-57 | the app's units are the sandbox's with every marker text replaced by `***` |
| Redaction.OutputGrows | main.py:151-155 | the output after `i` steps is a prefix of the output after any later step |
| Redaction.Snapshots | main.py:161 | one progress snapshot is delivered per step |
| Redaction.SnapshotAt | main.py:160-161 | snapshot `i` is the output right after step `i` |
| Redaction.SnapshotsArePrefixes | main.py:151-161 | every snapshot is a prefix of every later one, and the last snapshot is the final output |
| Redaction.ApplyPrediction | main.py:148-158 | the imperative loop body (the strip test, the flag, the two appends and the index increment) computes exactly `Step` |
| Redaction.RedactionLoop | main.py:129-161 | one oracle call per fragment until a call raises; the returned index is the number of successful steps, and an abort is reported exactly when the loop stopped early; the ghost prompt trace is the prompts of the steps tried; the four variables equal `Redact` over the replies and the fragments processed; the context is the concatenation of those fragments; the snapshots are `Snapshots` of the same; with no fragments there is no call and the output is `""` |
| Anonymizer.ProcessText | main.py:98-113 | with no model path, or with whitespace-only text, it warns and makes no model call; when a token of the stripped text cannot be decoded on its own, the error handler is reached with no model call and no snapshot; otherwise it runs the literal-marker loop on the stripped text, the output field receives exactly that loop's snapshots, the run finishes when every call succeeds and ends in the error handler after the successful steps' snapshots when one raises, and the prompts are those of the steps tried |
| Sandbox.RunScript | cli_sandbox.py:18-63 | apart from the printing, the script stops with no model call when a token cannot be decoded on its own; otherwise it prints the loop's final output with the predicted-token marker when every call succeeds, and stops before printing when a call raises; its prompts are those of `RedactionLoop` |
| Sandbox.SampleFragmentsJoin | cli_sandbox.py:9 | the sample tokenization of the script's sentence joins back to that sentence |
| Sandbox.SampleRedaction | cli_sandbox.py:9-60 | for any ten fragments, with the name and the three groups of digits of the script's sentence predicted as placeholders, the output keeps fragments 0, 1, 3, 7, 8 and 9, and has one marker for the name (fragment 2) and one marker for the whole number (fragments 4 to 6) |
| Sandbox.SampleAppOutput | main.py:148-155 | on the sample tokens with that prediction pattern, the app prints "Call Mr*** at***, ok?": the literal marker also replaces the leading space of each masked token |
| Sandbox.SampleScriptOutput | cli_sandbox.py:50-57 | on the sample tokens, when the runs are opened by the prediction " ***", the script prints "Call Mr *** at ***, ok?" |

## Left out

- The tkinter interface is not modelled because it is presentation only. This covers:
  - widgets, the progress bar and the status bar;
  - the file dialog;
  - the wording of the warning and error dialogs;
  - the marshalling of `root.after` (main.py:19-77, 163-185).
  - A snapshot is modelled as the string handed to `_update_output`.
- Loading the model with `Llama(...)` and a failed load (main.py:79-96, 117-119; cli_sandbox.py:5-6) are not modelled because they are foreign library calls. The model path is reduced to whether it is empty.
- The worker thread (main.py:113) is not modelled. The loop it runs is sequential and is modelled as such.
- The inference behind `create_completion` is an uninterpreted function. Two things follow:
  - The model assumes that the same prompt always yields the same reply.
  - `max_tokens` and `logprobs` are not represented.
- `tokenize`, `detokenize` and UTF-8 encoding and decoding (main.py:130-131, cli_sandbox.py:19-20) are a parameter `fragmentsOf`. Which texts make a decode fail is left to that parameter; the model only distinguishes failure (`None`) from success. That the fragments join back to the input text is a property of the tokenizer, and it is not assumed anywhere.
- The top-5 log-probability extraction, `math.exp` and all printing (cli_sandbox.py:38-48, 62-63) are not modelled. They are floating point and output, and they do not affect the masking decision. `Sandbox.RunScript` returns the text that would be printed instead.
- The text widget's trailing newline from `get("1.0", tk.END)` is not modelled separately. It is whitespace, so `Strip` removes it along with the rest.
- Redaction.Replies: its own contract only bounds the number of replies; what each reply is, and why the replies stop, is stated by `Redaction.ReplyAt`.
- Redaction.Prompts: its own contract only gives the number of prompts; their contents are stated by `Redaction.PromptsAre`.
