/** The part of `LlamaAnonymizerApp` (main.py) that decides whether a click
    on "Process" starts a run, and what the run delivers to the output field.
    Widgets, dialogs, threads and model loading stay outside the model. */
module Anonymizer {
  import opened Text
  import opened Redaction

  /** The warnings `process_text` shows instead of starting a run. */
  datatype Warning = NoModelSelected | NoInputText

  /** How a click on "Process" ends: with a warning before any model call, or
      with a run whose progress snapshots reached `_update_output` and which
      either finished or was stopped by an exception. */
  datatype Run = Warned(warning: Warning) | Finished(shown: seq<string>) | Errored(shown: seq<string>)

  /** `process_text` followed by the body of `_process_text_thread`.
      `modelPath` is "" when no model file was chosen; `widgetText` is what the
      input field holds; `fragmentsOf` stands for tokenizing the text and
      decoding each token on its own, `None` when a token is not valid UTF-8
      by itself and the decode raises; `oracle` for `create_completion`. */
  method ProcessText(modelPath: string, widgetText: string,
                     fragmentsOf: string -> Option<seq<string>>, oracle: string -> Reply)
    returns (run: Run, ghost prompts: seq<string>)
    ensures modelPath == "" ==> run == Warned(NoModelSelected)
    ensures modelPath != "" && AllSpace(widgetText) ==> run == Warned(NoInputText)
    ensures modelPath != "" && !AllSpace(widgetText) && fragmentsOf(Strip(widgetText)).None? ==>
      run == Errored([])
    ensures modelPath != "" && !AllSpace(widgetText) && fragmentsOf(Strip(widgetText)).Some? ==>
      var input := Strip(widgetText);
      var frags := fragmentsOf(input).value;
      var replies := Replies(oracle, PromptFor(input), frags);
      run == (if |replies| == |frags| then Finished(Snapshots(Gui, replies, frags))
              else Errored(Snapshots(Gui, replies, frags[..|replies|])))
    ensures modelPath == "" || AllSpace(widgetText) || fragmentsOf(Strip(widgetText)).None? ==> prompts == []
    ensures modelPath != "" && !AllSpace(widgetText) && fragmentsOf(Strip(widgetText)).Some? ==>
      var input := Strip(widgetText);
      var frags := fragmentsOf(input).value;
      var replies := Replies(oracle, PromptFor(input), frags);
      prompts == Prompts(PromptFor(input), frags, if |replies| == |frags| then |replies| else |replies| + 1)
  {
    if modelPath == "" {
      return Warned(NoModelSelected), [];
    }
    var input := Strip(widgetText);
    StripEmptyIff(widgetText);
    if input == "" {
      return Warned(NoInputText), [];
    }
    var decoded := fragmentsOf(input);
    if decoded.None? {
      return Errored([]), [];
    }
    var frags := decoded.value;
    var consumed, output, lastWasPlaceholder, cursor, aborted, snapshots;
    consumed, output, lastWasPlaceholder, cursor, aborted, snapshots, prompts :=
      RedactionLoop(Gui, PromptFor(input), frags, oracle);
    if aborted {
      run := Errored(snapshots);
    } else {
      assert frags[..cursor] == frags;
      run := Finished(snapshots);
    }
  }
}
