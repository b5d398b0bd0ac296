/** The token-by-token redaction loop. It exists twice in the repository,
    in `LlamaAnonymizerApp._process_text_thread` (main.py) and in the
    cli_sandbox.py script. The two copies differ only in the text they append
    when a placeholder run starts, which `Variant` selects. */
module Redaction {
  import opened Text

  /** Which copy of the loop: the desktop app appends the literal marker,
      the command-line sandbox appends the predicted token itself. */
  datatype Variant = Gui | Cli

  const PlaceholderMarker := "***"

  /** The text appended when a run of placeholder predictions starts. */
  function Marker(v: Variant, predicted: string): string {
    match v
    case Gui => PlaceholderMarker
    case Cli => predicted
  }

  /** What one `create_completion(prompt, max_tokens=1)` call yields: the
      text of the single predicted token, or an exception. */
  datatype Reply = Token(text: string) | Raised


  /** The four variables the loop updates: `generated_output`,
      `anonymized_output`, `last_was_placeholder` and `current_index`. */
  datatype Session = Session(consumed: string, output: string, lastWasPlaceholder: bool, cursor: nat)

  const Fresh := Session("", "", false, 0)

  /** The few-shot prompt both copies build around the input text. */
  const PromptHead := "You are a text anonymizer. Your task is to anonymize the following text. Replace all personal identifiable information (names, addresses, phone numbers, emails, specific locations, etc.) with generic placeholders. Maintain the meaning and structure of the text, but remove any information that could identify specific individuals or organizations.\n\nOrignal text: 'My name is James and I live at 17 Quaker street.'\nAnonymized text: 'My name is *** and I live at ***.'\n\nOriginal text: '"
  const PromptTail := "'\nAnonymized text: '"

  function PromptFor(input: string): string {
    PromptHead + input + PromptTail
  }

  /** The input text read back out of a prompt, if it is one. */
  function InputOf(prompt: string): (r: Option<string>)
    ensures r.Some? ==> PromptFor(r.value) == prompt
  {
    Unwrap(prompt, PromptHead, PromptTail)
  }

  /** The oracle sees the input verbatim: reading the input back out of its
      prompt gives the input. */
  lemma InputOfPromptFor(input: string)
    ensures InputOf(PromptFor(input)) == Some(input)
  {
    UnwrapWrap(PromptHead, input, PromptTail);
  }

  /** Two different input texts never share a prompt. */
  lemma {:induction false} PromptForInjective(a: string, b: string)
    ensures PromptFor(a) == PromptFor(b) ==> a == b
  {
    InputOfPromptFor(a);
    InputOfPromptFor(b);
  }

  /** The prompt of step `i`: the preamble followed by the first `i`
      ORIGINAL fragments. */
  function Prompt(preamble: string, frags: seq<string>, i: nat): string
    requires i <= |frags|
  {
    preamble + Concat(frags[..i])
  }

  /** The prompts of the first `n` steps, in order. */
  function Prompts(preamble: string, frags: seq<string>, n: nat): (r: seq<string>)
    requires n <= |frags|
    ensures |r| == n
  {
    if n == 0 then [] else Prompts(preamble, frags, n - 1) + [Prompt(preamble, frags, n - 1)]
  }

  lemma PromptsExtend(preamble: string, frags: seq<string>, k: nat)
    requires k < |frags|
    ensures Prompts(preamble, frags, k + 1) == Prompts(preamble, frags, k) + [Prompt(preamble, frags, k)]
  {
  }

  /** Step `i` sends the preamble followed by the original fragments before
      position `i`. */
  lemma {:induction false} PromptsAre(preamble: string, frags: seq<string>, n: nat)
    requires n <= |frags|
    ensures forall i :: 0 <= i < n ==> Prompts(preamble, frags, n)[i] == preamble + Concat(frags[..i])
  {
    if n > 0 {
      PromptsAre(preamble, frags, n - 1);
    }
  }

  /** One pass of the loop body once the oracle has answered `predicted`. */
  function Step(v: Variant, s: Session, predicted: string, fragment: string): (r: Session)
    ensures r.cursor == s.cursor + 1
    ensures r.consumed == s.consumed + fragment
    ensures s.output <= r.output
    ensures r.lastWasPlaceholder == IsPlaceholder(predicted)
  {
    var output :=
      if !IsPlaceholder(predicted) then s.output + fragment
      else if s.lastWasPlaceholder then s.output
      else s.output + Marker(v, predicted);
    Session(s.consumed + fragment, output, IsPlaceholder(predicted), s.cursor + 1)
  }

  /** The state reached after running the loop body over `frags` with the
      oracle answering `preds[i]` at step `i`. */
  function Redact(v: Variant, preds: seq<string>, frags: seq<string>): (s: Session)
    requires |preds| == |frags|
    ensures s.cursor == |frags|
    ensures s.lastWasPlaceholder <==> |preds| > 0 && IsPlaceholder(preds[|preds| - 1])
    decreases |frags|
  {
    if |frags| == 0 then Fresh
    else
      var n := |frags| - 1;
      Step(v, Redact(v, preds[..n], frags[..n]), preds[n], frags[n])
  }

  /** The loop's record of what it has consumed is the concatenation of
      the original fragments, whatever the oracle answered. */
  lemma {:induction false} RedactConsumed(v: Variant, preds: seq<string>, frags: seq<string>)
    requires |preds| == |frags|
    ensures Redact(v, preds, frags).consumed == Concat(frags)
    decreases |frags|
  {
    if |frags| > 0 {
      RedactConsumed(v, preds[..|frags| - 1], frags[..|frags| - 1]);
    }
  }

  /** The answers of the oracle, in order, from step `j` up to the first
      call that raises (or up to the last fragment). */
  function RepliesFrom(oracle: string -> Reply, preamble: string, frags: seq<string>, j: nat): (r: seq<string>)
    requires j <= |frags|
    ensures j + |r| <= |frags|
    decreases |frags| - j
  {
    if j == |frags| then []
    else match oracle(Prompt(preamble, frags, j))
      case Raised => []
      case Token(t) => [t] + RepliesFrom(oracle, preamble, frags, j + 1)
  }

  lemma {:induction false} RepliesFromAnswer(oracle: string -> Reply, preamble: string, frags: seq<string>, j: nat, i: nat)
    requires j <= i < |frags| && i <= j + |RepliesFrom(oracle, preamble, frags, j)|
    ensures var r := RepliesFrom(oracle, preamble, frags, j);
      if i < j + |r| then oracle(Prompt(preamble, frags, i)) == Token(r[i - j])
      else oracle(Prompt(preamble, frags, i)) == Raised
    decreases i - j
  {
    if i > j {
      RepliesFromAnswer(oracle, preamble, frags, j + 1, i);
    }
  }

  /** The predictions the loop receives. Because every prompt is built from
      the original fragments only, they depend on the oracle, the preamble
      and the fragments, and never on what was masked. */
  function Replies(oracle: string -> Reply, preamble: string, frags: seq<string>): (r: seq<string>)
    ensures |r| <= |frags|
  {
    RepliesFrom(oracle, preamble, frags, 0)
  }

  /** Each reply is the token the oracle returns for the prompt of its step,
      and the replies stop short of the last fragment only where the next
      call raises. */
  lemma ReplyAt(oracle: string -> Reply, preamble: string, frags: seq<string>, i: nat)
    requires i < |frags| && i <= |Replies(oracle, preamble, frags)|
    ensures var r := Replies(oracle, preamble, frags);
      if i < |r| then oracle(Prompt(preamble, frags, i)) == Token(r[i])
      else oracle(Prompt(preamble, frags, i)) == Raised
  {
    RepliesFromAnswer(oracle, preamble, frags, 0, i);
  }

  /** The outputs handed to `_update_output`, one after each step. */
  function Snapshots(v: Variant, preds: seq<string>, frags: seq<string>): (r: seq<string>)
    requires |preds| == |frags|
    ensures |r| == |frags|
    decreases |frags|
  {
    if |frags| == 0 then []
    else
      var n := |frags| - 1;
      Snapshots(v, preds[..n], frags[..n]) + [Redact(v, preds, frags).output]
  }

  // ---------------------------------------------------------------------
  // The output read as a sequence of units: each unit is one original
  // fragment kept, or one placeholder marker standing for a run of masked
  // fragments.

  datatype Unit = Kept(text: string) | Masked(text: string)

  function Render(units: seq<Unit>): string {
    if |units| == 0 then "" else Render(units[..|units| - 1]) + units[|units| - 1].text
  }

  predicate EndsMasked(units: seq<Unit>) {
    |units| > 0 && units[|units| - 1].Masked?
  }

  predicate NoAdjacentMasks(units: seq<Unit>) {
    forall i :: 0 < i < |units| ==> !(units[i - 1].Masked? && units[i].Masked?)
  }

  /** Reference definition of the output, without the flag: a fragment whose
      prediction is not a placeholder is kept; a placeholder prediction opens
      a marker unless the previous prediction was a placeholder too. */
  function Units(v: Variant, preds: seq<string>, frags: seq<string>): (r: seq<Unit>)
    requires |preds| == |frags|
    ensures |r| <= |frags|
    ensures EndsMasked(r) <==> |preds| > 0 && IsPlaceholder(preds[|preds| - 1])
    decreases |frags|
  {
    if |frags| == 0 then []
    else
      var n := |frags| - 1;
      var prev := Units(v, preds[..n], frags[..n]);
      if !IsPlaceholder(preds[n]) then prev + [Kept(frags[n])]
      else if n > 0 && IsPlaceholder(preds[n - 1]) then prev
      else prev + [Masked(Marker(v, preds[n]))]
  }

  function MaskedTexts(units: seq<Unit>): seq<string> {
    if |units| == 0 then []
    else
      var last := units[|units| - 1];
      MaskedTexts(units[..|units| - 1]) + (if last.Masked? then [last.text] else [])
  }

  function KeptTexts(units: seq<Unit>): seq<string> {
    if |units| == 0 then []
    else
      var last := units[|units| - 1];
      KeptTexts(units[..|units| - 1]) + (if last.Kept? then [last.text] else [])
  }

  /** The fragments whose prediction is not a placeholder, in order. */
  function Unmasked(preds: seq<string>, frags: seq<string>): seq<string>
    requires |preds| == |frags|
  {
    if |frags| == 0 then []
    else
      var n := |frags| - 1;
      Unmasked(preds[..n], frags[..n]) + (if IsPlaceholder(preds[n]) then [] else [frags[n]])
  }

  /** One marker per maximal run of consecutive placeholder predictions,
      made from the prediction that opens the run. */
  function RunMarkers(v: Variant, preds: seq<string>): (r: seq<string>)
    ensures |r| <= |preds|
    ensures v == Gui ==> forall k :: 0 <= k < |r| ==> r[k] == PlaceholderMarker
    ensures v == Cli ==> forall k :: 0 <= k < |r| ==> IsPlaceholder(r[k])
  {
    if |preds| == 0 then []
    else
      var n := |preds| - 1;
      var opensRun := IsPlaceholder(preds[n]) && !(n > 0 && IsPlaceholder(preds[n - 1]));
      RunMarkers(v, preds[..n]) + (if opensRun then [Marker(v, preds[n])] else [])
  }

  /** The desktop app's units are the sandbox's with every marker text
      replaced by the literal marker. */
  function AsLiteralMarkers(units: seq<Unit>): seq<Unit> {
    if |units| == 0 then []
    else
      var last := units[|units| - 1];
      AsLiteralMarkers(units[..|units| - 1]) + [if last.Masked? then Masked(PlaceholderMarker) else last]
  }

  // ---------------------------------------------------------------------
  // Properties of the loop's specification.

  /** The flag-driven loop produces exactly the reference units, and its
      flag says whether the output currently ends in a marker. */
  lemma {:induction false} RedactIsUnits(v: Variant, preds: seq<string>, frags: seq<string>)
    requires |preds| == |frags|
    ensures Redact(v, preds, frags).output == Render(Units(v, preds, frags))
    ensures Redact(v, preds, frags).lastWasPlaceholder == EndsMasked(Units(v, preds, frags))
  {
    RedactIsUnitsUpTo(v, preds, frags, |frags|);
    assert preds[..|frags|] == preds && frags[..|frags|] == frags;
  }

  lemma {:induction false} RedactIsUnitsUpTo(v: Variant, preds: seq<string>, frags: seq<string>, i: nat)
    requires |preds| == |frags| && i <= |frags|
    ensures Redact(v, preds[..i], frags[..i]).output == Render(Units(v, preds[..i], frags[..i]))
    ensures Redact(v, preds[..i], frags[..i]).lastWasPlaceholder == EndsMasked(Units(v, preds[..i], frags[..i]))
  {
    if i > 0 {
      var k := i - 1;
      RedactIsUnitsUpTo(v, preds, frags, k);
      RedactExtend(v, preds, frags, k);
      UnitsExtend(v, preds, frags, k);
      var prev := Units(v, preds[..k], frags[..k]);
      if !IsPlaceholder(preds[k]) {
        RenderAppend(prev, Kept(frags[k]));
      } else if !(k > 0 && IsPlaceholder(preds[k - 1])) {
        RenderAppend(prev, Masked(Marker(v, preds[k])));
      }
    }
  }

  /** `Units` of a one-longer prefix, and the flag of the shorter one. */
  lemma UnitsExtend(v: Variant, preds: seq<string>, frags: seq<string>, k: nat)
    requires k < |preds| && k < |frags|
    ensures Redact(v, preds[..k], frags[..k]).lastWasPlaceholder <==> k > 0 && IsPlaceholder(preds[k - 1])
    ensures Units(v, preds[..k + 1], frags[..k + 1])
         == var prev := Units(v, preds[..k], frags[..k]);
            if !IsPlaceholder(preds[k]) then prev + [Kept(frags[k])]
            else if k > 0 && IsPlaceholder(preds[k - 1]) then prev
            else prev + [Masked(Marker(v, preds[k]))]
  {
    assert preds[..k + 1][..k] == preds[..k];
    assert frags[..k + 1][..k] == frags[..k];
    assert k > 0 ==> preds[..k][k - 1] == preds[k - 1];
  }

  lemma RenderAppend(units: seq<Unit>, u: Unit)
    ensures Render(units + [u]) == Render(units) + u.text
    ensures EndsMasked(units + [u]) == u.Masked?
  {
  }

  /** No marker unit is ever immediately followed by another marker unit. */
  lemma {:induction false} UnitsNoAdjacentMasks(v: Variant, preds: seq<string>, frags: seq<string>)
    requires |preds| == |frags|
    ensures NoAdjacentMasks(Units(v, preds, frags))
    decreases |frags|
  {
    if |frags| > 0 {
      var n := |frags| - 1;
      UnitsNoAdjacentMasks(v, preds[..n], frags[..n]);
      assert n > 0 ==> preds[..n][n - 1] == preds[n - 1];
    }
  }

  /** The marker units are exactly one per run of placeholder predictions,
      in order. */
  lemma {:induction false} MaskedRuns(v: Variant, preds: seq<string>, frags: seq<string>)
    requires |preds| == |frags|
    ensures MaskedTexts(Units(v, preds, frags)) == RunMarkers(v, preds)
    decreases |frags|
  {
    if |frags| > 0 {
      var n := |frags| - 1;
      MaskedRuns(v, preds[..n], frags[..n]);
      var prev := Units(v, preds[..n], frags[..n]);
      assert (prev + [Kept(frags[n])])[..|prev|] == prev;
      assert (prev + [Masked(Marker(v, preds[n]))])[..|prev|] == prev;
    }
  }

  /** The kept units are exactly the fragments whose prediction was not a
      placeholder, unchanged and in order. */
  lemma {:induction false} KeptFragments(v: Variant, preds: seq<string>, frags: seq<string>)
    requires |preds| == |frags|
    ensures KeptTexts(Units(v, preds, frags)) == Unmasked(preds, frags)
    decreases |frags|
  {
    if |frags| > 0 {
      var n := |frags| - 1;
      KeptFragments(v, preds[..n], frags[..n]);
      var prev := Units(v, preds[..n], frags[..n]);
      assert (prev + [Kept(frags[n])])[..|prev|] == prev;
      assert (prev + [Masked(Marker(v, preds[n]))])[..|prev|] == prev;
    }
  }

  /** When the oracle never predicts a placeholder, the output is the
      detokenized input. */
  lemma {:induction false} NoPlaceholderKeepsText(v: Variant, preds: seq<string>, frags: seq<string>)
    requires |preds| == |frags|
    requires forall i :: 0 <= i < |preds| ==> !IsPlaceholder(preds[i])
    ensures Redact(v, preds, frags).output == Concat(frags)
    decreases |frags|
  {
    if |frags| > 0 {
      var n := |frags| - 1;
      assert forall i :: 0 <= i < n ==> preds[..n][i] == preds[i];
      NoPlaceholderKeepsText(v, preds[..n], frags[..n]);
    }
  }

  /** The two copies of the loop cut the input into the same units; they
      differ only in the text of the markers. */
  lemma {:induction false} OnlyMarkersDiffer(preds: seq<string>, frags: seq<string>)
    requires |preds| == |frags|
    ensures Units(Gui, preds, frags) == AsLiteralMarkers(Units(Cli, preds, frags))
    decreases |frags|
  {
    if |frags| > 0 {
      var n := |frags| - 1;
      OnlyMarkersDiffer(preds[..n], frags[..n]);
      var prev := Units(Cli, preds[..n], frags[..n]);
      assert (prev + [Kept(frags[n])])[..|prev|] == prev;
      assert (prev + [Masked(Marker(Cli, preds[n]))])[..|prev|] == prev;
    }
  }

  /** The output after `i` steps is a prefix of the output after `j >= i`
      steps: output only grows. */
  lemma {:induction false} OutputGrows(v: Variant, preds: seq<string>, frags: seq<string>, i: nat, j: nat)
    requires |preds| == |frags|
    requires i <= j <= |frags|
    ensures Redact(v, preds[..i], frags[..i]).output <= Redact(v, preds[..j], frags[..j]).output
    decreases j
  {
    if i < j {
      OutputGrows(v, preds, frags, i, j - 1);
      assert preds[..j][..j - 1] == preds[..j - 1];
      assert frags[..j][..j - 1] == frags[..j - 1];
    }
  }

  /** Snapshot `i` is the output after step `i`. */
  lemma {:induction false} SnapshotAt(v: Variant, preds: seq<string>, frags: seq<string>, i: nat)
    requires |preds| == |frags| && i < |frags|
    ensures |Snapshots(v, preds, frags)| == |frags|
    ensures Snapshots(v, preds, frags)[i] == Redact(v, preds[..i + 1], frags[..i + 1]).output
    decreases |frags|
  {
    var n := |frags| - 1;
    if i < n {
      SnapshotAt(v, preds[..n], frags[..n], i);
      assert preds[..n][..i + 1] == preds[..i + 1];
      assert frags[..n][..i + 1] == frags[..i + 1];
    } else {
      assert preds[..i + 1] == preds;
      assert frags[..i + 1] == frags;
    }
  }

  lemma SnapshotPair(v: Variant, preds: seq<string>, frags: seq<string>, i: nat, j: nat)
    requires |preds| == |frags| && i <= j < |frags|
    ensures Snapshots(v, preds, frags)[i] <= Snapshots(v, preds, frags)[j]
  {
    SnapshotAt(v, preds, frags, i);
    SnapshotAt(v, preds, frags, j);
    OutputGrows(v, preds, frags, i + 1, j + 1);
  }

  /** Every progress snapshot is a prefix of the next one, and the last one
      is the final output. */
  lemma {:induction false} SnapshotsArePrefixes(v: Variant, preds: seq<string>, frags: seq<string>)
    requires |preds| == |frags|
    ensures |Snapshots(v, preds, frags)| == |frags|
    ensures forall i, j :: 0 <= i <= j < |frags| ==> Snapshots(v, preds, frags)[i] <= Snapshots(v, preds, frags)[j]
    ensures |frags| > 0 ==> Snapshots(v, preds, frags)[|frags| - 1] == Redact(v, preds, frags).output
  {
    var s := Snapshots(v, preds, frags);
    forall i, j | 0 <= i <= j < |frags| ensures s[i] <= s[j] {
      SnapshotPair(v, preds, frags, i, j);
    }
  }

  // ---------------------------------------------------------------------
  // The loop itself.

  /** One more pass of the loop body extends the specification by one step. */
  lemma RedactExtend(v: Variant, preds: seq<string>, frags: seq<string>, i: nat)
    requires i < |preds| && i < |frags|
    ensures Redact(v, preds[..i + 1], frags[..i + 1]) == Step(v, Redact(v, preds[..i], frags[..i]), preds[i], frags[i])
  {
    assert preds[..i + 1][..i] == preds[..i];
    assert frags[..i + 1][..i] == frags[..i];
  }

  /** A prediction that is not a placeholder appends the original fragment
      unchanged and clears the flag. */
  lemma KeptStep(v: Variant, preds: seq<string>, frags: seq<string>, i: nat)
    requires i < |preds| && i < |frags|
    requires !IsPlaceholder(preds[i])
    ensures Redact(v, preds[..i + 1], frags[..i + 1]).output == Redact(v, preds[..i], frags[..i]).output + frags[i]
    ensures !Redact(v, preds[..i + 1], frags[..i + 1]).lastWasPlaceholder
  {
    RedactExtend(v, preds, frags, i);
  }

  /** A placeholder prediction that follows a non-placeholder one (or comes
      first) appends exactly one marker and sets the flag. */
  lemma OpenStep(v: Variant, preds: seq<string>, frags: seq<string>, i: nat)
    requires i < |preds| && i < |frags|
    requires IsPlaceholder(preds[i]) && !(i > 0 && IsPlaceholder(preds[i - 1]))
    ensures Redact(v, preds[..i + 1], frags[..i + 1]).output
         == Redact(v, preds[..i], frags[..i]).output + Marker(v, preds[i])
    ensures Redact(v, preds[..i + 1], frags[..i + 1]).lastWasPlaceholder
  {
    RedactExtend(v, preds, frags, i);
    assert i > 0 ==> preds[..i][i - 1] == preds[i - 1];
  }

  /** A placeholder prediction right after another one appends nothing:
      the run collapses into the marker already there. */
  lemma AbsorbStep(v: Variant, preds: seq<string>, frags: seq<string>, i: nat)
    requires i < |preds| && i < |frags|
    requires i > 0 && IsPlaceholder(preds[i]) && IsPlaceholder(preds[i - 1])
    ensures Redact(v, preds[..i + 1], frags[..i + 1]).output == Redact(v, preds[..i], frags[..i]).output
    ensures Redact(v, preds[..i + 1], frags[..i + 1]).lastWasPlaceholder
  {
    RedactExtend(v, preds, frags, i);
    assert preds[..i][i - 1] == preds[i - 1];
  }

  /** One more pass of the loop body delivers one more snapshot. */
  lemma SnapshotsExtend(v: Variant, preds: seq<string>, frags: seq<string>, i: nat)
    requires i < |preds| && i < |frags|
    ensures Snapshots(v, preds[..i + 1], frags[..i + 1])
         == Snapshots(v, preds[..i], frags[..i]) + [Redact(v, preds[..i + 1], frags[..i + 1]).output]
  {
    assert preds[..i + 1][..i] == preds[..i];
    assert frags[..i + 1][..i] == frags[..i];
  }

  /** One pass of the loop body, stated on the loop's own state: applying
      `Step` to the state and snapshots after `i` steps gives those after
      `i + 1`. */
  lemma LoopStep(v: Variant, preds: seq<string>, frags: seq<string>, i: nat, s: Session, snaps: seq<string>)
    requires i < |preds| && i < |frags|
    requires s == Redact(v, preds[..i], frags[..i])
    requires snaps == Snapshots(v, preds[..i], frags[..i])
    ensures Step(v, s, preds[i], frags[i]) == Redact(v, preds[..i + 1], frags[..i + 1])
    ensures snaps + [Step(v, s, preds[i], frags[i]).output] == Snapshots(v, preds[..i + 1], frags[..i + 1])
  {
    RedactExtend(v, preds, frags, i);
    SnapshotsExtend(v, preds, frags, i);
  }

  /** The body of the loop once the oracle has answered: the anonymization
      test on the stripped prediction, then the move to the next fragment. */
  method ApplyPrediction(v: Variant, s: Session, predicted: string, fragment: string) returns (r: Session)
    ensures r == Step(v, s, predicted, fragment)
  {
    var output, lastWasPlaceholder := s.output, s.lastWasPlaceholder;
    if StripStartsWithStar(predicted) {
      if !lastWasPlaceholder {
        output := output + Marker(v, predicted);
        lastWasPlaceholder := true;
      }
    } else {
      output := output + fragment;
      lastWasPlaceholder := false;
    }
    PlaceholderIff(predicted);
    r := Session(s.consumed + fragment, output, lastWasPlaceholder, s.cursor + 1);
  }

  /** Runs the loop over `frags`, asking `oracle` for one token per step.
      Returns the four loop variables, whether an oracle call raised, the
      progress snapshots delivered, and (ghost) the prompts sent. */
  method RedactionLoop(v: Variant, preamble: string, frags: seq<string>, oracle: string -> Reply)
    returns (consumed: string, output: string, lastWasPlaceholder: bool, cursor: nat,
             aborted: bool, snapshots: seq<string>, ghost prompts: seq<string>)
    ensures cursor == |Replies(oracle, preamble, frags)|
    ensures aborted <==> cursor < |frags|
    ensures prompts == Prompts(preamble, frags, if aborted then cursor + 1 else cursor)
    ensures Session(consumed, output, lastWasPlaceholder, cursor)
         == Redact(v, Replies(oracle, preamble, frags), frags[..cursor])
    ensures consumed == Concat(frags[..cursor])
    ensures snapshots == Snapshots(v, Replies(oracle, preamble, frags), frags[..cursor])
    ensures |frags| == 0 ==> prompts == [] && output == ""
  {
    ghost var replies := Replies(oracle, preamble, frags);
    consumed, output, lastWasPlaceholder, cursor := "", "", false, 0;
    aborted := false;
    snapshots, prompts := [], [];
    while cursor < |frags|
      invariant cursor <= |replies|
      invariant Session(consumed, output, lastWasPlaceholder, cursor)
             == Redact(v, replies[..cursor], frags[..cursor])
      invariant prompts == Prompts(preamble, frags, cursor)
      invariant snapshots == Snapshots(v, replies[..cursor], frags[..cursor])
      invariant !aborted
    {
      RedactConsumed(v, replies[..cursor], frags[..cursor]);
      assert preamble + consumed == Prompt(preamble, frags, cursor);
      ReplyAt(oracle, preamble, frags, cursor);
      var reply := oracle(preamble + consumed);
      PromptsExtend(preamble, frags, cursor);
      prompts := prompts + [preamble + consumed];
      if reply.Raised? {
        aborted := true;
        break;
      }
      var predicted := reply.text;
      var before := Session(consumed, output, lastWasPlaceholder, cursor);
      ghost var earlier := snapshots;
      var next := ApplyPrediction(v, before, predicted, frags[cursor]);
      consumed, output, lastWasPlaceholder, cursor := next.consumed, next.output, next.lastWasPlaceholder, next.cursor;
      snapshots := snapshots + [output];
      LoopStep(v, replies, frags, before.cursor, before, earlier);
    }
    assert replies[..cursor] == replies;
    RedactConsumed(v, replies, frags[..cursor]);
  }
}
