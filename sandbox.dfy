/** The cli_sandbox.py script: one fixed sentence, anonymized with the loop
    variant that appends the predicted token as the marker. */
module Sandbox {
  import opened Text
  import opened Redaction

  const SampleText := "Call Mr Jones at 760 458 123, ok?"

  /** The script either prints the final output or stops at an exception
      before printing it. */
  datatype ScriptEnd = Printed(text: string) | Crashed

  /** The module-level script. `fragmentsOf` stands for tokenizing the text
      and decoding each token on its own, `None` when a token is not valid
      UTF-8 by itself and the decode raises; `oracle` for `create_completion`. */
  method RunScript(fragmentsOf: string -> Option<seq<string>>, oracle: string -> Reply)
    returns (end: ScriptEnd, ghost prompts: seq<string>)
    ensures fragmentsOf(SampleText).None? ==> end == Crashed
    ensures fragmentsOf(SampleText).Some? ==>
      var frags := fragmentsOf(SampleText).value;
      var replies := Replies(oracle, PromptFor(SampleText), frags);
      end == (if |replies| == |frags| then Printed(Redact(Cli, replies, frags).output) else Crashed)
    ensures fragmentsOf(SampleText).None? ==> prompts == []
    ensures fragmentsOf(SampleText).Some? ==>
      var frags := fragmentsOf(SampleText).value;
      var replies := Replies(oracle, PromptFor(SampleText), frags);
      prompts == Prompts(PromptFor(SampleText), frags, if |replies| == |frags| then |replies| else |replies| + 1)
  {
    var decoded := fragmentsOf(SampleText);
    if decoded.None? {
      return Crashed, [];
    }
    var frags := decoded.value;
    var consumed, output, lastWasPlaceholder, cursor, aborted, snapshots;
    consumed, output, lastWasPlaceholder, cursor, aborted, snapshots, prompts :=
      RedactionLoop(Cli, PromptFor(SampleText), frags, oracle);
    if aborted {
      end := Crashed;
    } else {
      assert frags[..cursor] == frags;
      end := Printed(output);
    }
  }

  /** One plausible cut of the sample sentence into tokens. */
  const SampleFragments := ["Call", " Mr", " Jones", " at", " 760", " 458", " 123", ",", " ok", "?"]

  /** The first five sample tokens put back together. */
  lemma SampleFragmentsJoinHead()
    ensures Concat(SampleFragments[..5]) == "Call Mr Jones at 760"
  {
    assert Concat(SampleFragments[..1]) == "Call" by {
      assert SampleFragments[..1][..0] == SampleFragments[..0];
    }
    assert Concat(SampleFragments[..2]) == "Call Mr" by {
      assert SampleFragments[..2][..1] == SampleFragments[..1];
    }
    assert Concat(SampleFragments[..3]) == "Call Mr Jones" by {
      assert SampleFragments[..3][..2] == SampleFragments[..2];
    }
    assert Concat(SampleFragments[..4]) == "Call Mr Jones at" by {
      assert SampleFragments[..4][..3] == SampleFragments[..3];
    }
    assert Concat(SampleFragments[..5]) == "Call Mr Jones at 760" by {
      assert SampleFragments[..5][..4] == SampleFragments[..4];
    }
  }

  /** The sample tokens put back together give the sample sentence. */
  lemma SampleFragmentsJoin()
    ensures Concat(SampleFragments) == SampleText
  {
    SampleFragmentsJoinHead();
    assert Concat(SampleFragments[..6]) == "Call Mr Jones at 760 458" by {
      assert SampleFragments[..6][..5] == SampleFragments[..5];
    }
    assert Concat(SampleFragments[..7]) == "Call Mr Jones at 760 458 123" by {
      assert SampleFragments[..7][..6] == SampleFragments[..6];
    }
    assert Concat(SampleFragments[..8]) == "Call Mr Jones at 760 458 123," by {
      assert SampleFragments[..8][..7] == SampleFragments[..7];
    }
    assert Concat(SampleFragments[..9]) == "Call Mr Jones at 760 458 123, ok" by {
      assert SampleFragments[..9][..8] == SampleFragments[..8];
    }
    assert Concat(SampleFragments[..10]) == "Call Mr Jones at 760 458 123, ok?" by {
      assert SampleFragments[..10][..9] == SampleFragments[..9];
    }
    assert SampleFragments[..10] == SampleFragments;
  }

  /** Steps 0 to 2 of the sample: the name becomes one marker. */
  lemma SampleName(v: Variant, preds: seq<string>, frags: seq<string>)
    requires |preds| == |frags| == 10
    requires !IsPlaceholder(preds[0]) && !IsPlaceholder(preds[1]) && IsPlaceholder(preds[2])
    ensures Redact(v, preds[..3], frags[..3]).output == frags[0] + frags[1] + Marker(v, preds[2])
  {
    assert preds[..0] == [] && frags[..0] == [];
    assert Redact(v, preds[..1], frags[..1]).output == frags[0] by {
      KeptStep(v, preds, frags, 0);
    }
    assert Redact(v, preds[..2], frags[..2]).output == frags[0] + frags[1] by {
      KeptStep(v, preds, frags, 1);
    }
    assert Redact(v, preds[..3], frags[..3]).output == frags[0] + frags[1] + Marker(v, preds[2]) by {
      OpenStep(v, preds, frags, 2);
    }
  }

  /** Steps 3 to 5: the first group of the phone number opens a second
      marker and the next group adds nothing. */
  lemma SamplePhoneStart(v: Variant, preds: seq<string>, frags: seq<string>)
    requires |preds| == |frags| == 10
    requires !IsPlaceholder(preds[0]) && !IsPlaceholder(preds[1]) && IsPlaceholder(preds[2]) && !IsPlaceholder(preds[3])
    requires IsPlaceholder(preds[4]) && IsPlaceholder(preds[5])
    ensures Redact(v, preds[..6], frags[..6]).output == frags[0] + frags[1] + Marker(v, preds[2]) + frags[3] + Marker(v, preds[4])
  {
    SampleName(v, preds, frags);
    assert Redact(v, preds[..4], frags[..4]).output == frags[0] + frags[1] + Marker(v, preds[2]) + frags[3] by {
      KeptStep(v, preds, frags, 3);
    }
    assert Redact(v, preds[..5], frags[..5]).output == frags[0] + frags[1] + Marker(v, preds[2]) + frags[3] + Marker(v, preds[4]) by {
      OpenStep(v, preds, frags, 4);
    }
    assert Redact(v, preds[..6], frags[..6]).output == frags[0] + frags[1] + Marker(v, preds[2]) + frags[3] + Marker(v, preds[4]) by {
      AbsorbStep(v, preds, frags, 5);
    }
  }

  /** Steps 6 and 7: the last group of the phone number adds nothing and
      the comma is kept. */
  lemma SamplePhoneEnd(v: Variant, preds: seq<string>, frags: seq<string>)
    requires |preds| == |frags| == 10
    requires !IsPlaceholder(preds[0]) && !IsPlaceholder(preds[1]) && IsPlaceholder(preds[2]) && !IsPlaceholder(preds[3])
    requires IsPlaceholder(preds[4]) && IsPlaceholder(preds[5]) && IsPlaceholder(preds[6]) && !IsPlaceholder(preds[7])
    ensures Redact(v, preds[..8], frags[..8]).output == frags[0] + frags[1] + Marker(v, preds[2]) + frags[3] + Marker(v, preds[4]) + frags[7]
  {
    SamplePhoneStart(v, preds, frags);
    assert Redact(v, preds[..7], frags[..7]).output == frags[0] + frags[1] + Marker(v, preds[2]) + frags[3] + Marker(v, preds[4]) by {
      AbsorbStep(v, preds, frags, 6);
    }
    KeptStep(v, preds, frags, 7);
  }

  /** The sample sentence with the name and the three groups of the phone
      number predicted as placeholders: the name becomes one marker and the
      three groups collapse into a single marker. `SampleAppOutput` and
      `SampleScriptOutput` spell this out on `SampleFragments`. */
  lemma SampleRedaction(v: Variant, preds: seq<string>, frags: seq<string>)
    requires |preds| == |frags| == 10
    requires !IsPlaceholder(preds[0]) && !IsPlaceholder(preds[1]) && IsPlaceholder(preds[2]) && !IsPlaceholder(preds[3])
    requires IsPlaceholder(preds[4]) && IsPlaceholder(preds[5]) && IsPlaceholder(preds[6]) && !IsPlaceholder(preds[7])
    requires !IsPlaceholder(preds[8]) && !IsPlaceholder(preds[9])
    ensures Redact(v, preds, frags).output == frags[0] + frags[1] + Marker(v, preds[2]) + frags[3] + Marker(v, preds[4]) + frags[7] + frags[8] + frags[9]
  {
    SamplePhoneEnd(v, preds, frags);
    assert Redact(v, preds[..9], frags[..9]).output == frags[0] + frags[1] + Marker(v, preds[2]) + frags[3] + Marker(v, preds[4]) + frags[7] + frags[8] by {
      KeptStep(v, preds, frags, 8);
    }
    KeptStep(v, preds, frags, 9);
    assert preds[..10] == preds && frags[..10] == frags;
  }

  /** The worked example in the desktop app: the literal marker replaces each
      masked token together with its leading space. */
  lemma SampleAppOutput(preds: seq<string>)
    requires |preds| == 10
    requires !IsPlaceholder(preds[0]) && !IsPlaceholder(preds[1]) && IsPlaceholder(preds[2]) && !IsPlaceholder(preds[3])
    requires IsPlaceholder(preds[4]) && IsPlaceholder(preds[5]) && IsPlaceholder(preds[6]) && !IsPlaceholder(preds[7])
    requires !IsPlaceholder(preds[8]) && !IsPlaceholder(preds[9])
    ensures Redact(Gui, preds, SampleFragments).output == "Call Mr*** at***, ok?"
  {
    SampleRedaction(Gui, preds, SampleFragments);
  }

  /** The worked example in the sandbox, when the model predicts " ***" for
      the tokens that open the two runs. */
  lemma SampleScriptOutput(preds: seq<string>)
    requires |preds| == 10
    requires !IsPlaceholder(preds[0]) && !IsPlaceholder(preds[1]) && preds[2] == " ***" && !IsPlaceholder(preds[3])
    requires preds[4] == " ***" && IsPlaceholder(preds[5]) && IsPlaceholder(preds[6]) && !IsPlaceholder(preds[7])
    requires !IsPlaceholder(preds[8]) && !IsPlaceholder(preds[9])
    ensures Redact(Cli, preds, SampleFragments).output == "Call Mr *** at ***, ok?"
  {
    assert IsPlaceholder(" ***");
    SampleRedaction(Cli, preds, SampleFragments);
    assert Marker(Cli, preds[2]) == Marker(Cli, preds[4]) == " ***";
  }
}
