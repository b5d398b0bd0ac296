/** The pieces of Python's `str` behaviour that the redaction loop relies on:
    `str.strip()`, `startswith("*")` and `"".join(...)`. */
module Text {

  datatype Option<T> = None | Some(value: T)

  /** The characters Python's `str.isspace()` accepts, which are the ones
      `str.strip()` with no argument removes. */
  predicate IsSpace(c: char) {
    || c == ' '
    || ('\t' <= c <= '\r')
    || ('\U{1C}' <= c <= '\U{1F}')
    || c == '\U{85}'
    || c == '\U{A0}'
    || c == '\U{1680}'
    || ('\U{2000}' <= c <= '\U{200A}')
    || c == '\U{2028}'
    || c == '\U{2029}'
    || c == '\U{202F}'
    || c == '\U{205F}'
    || c == '\U{3000}'
  }

  predicate AllSpace(s: string) {
    forall i :: 0 <= i < |s| ==> IsSpace(s[i])
  }

  /** Python's `s.lstrip()`. */
  function LStrip(s: string): string {
    if |s| > 0 && IsSpace(s[0]) then LStrip(s[1..]) else s
  }

  /** Python's `s.rstrip()`. */
  function RStrip(s: string): string {
    if |s| > 0 && IsSpace(s[|s| - 1]) then RStrip(s[..|s| - 1]) else s
  }

  /** Leading stripping keeps the longest suffix of `s` that does not start
      with a space, and drops only spaces. */
  lemma {:induction false} LStripSpec(s: string)
    ensures |LStrip(s)| <= |s| && LStrip(s) == s[|s| - |LStrip(s)|..]
    ensures AllSpace(s[..|s| - |LStrip(s)|])
    ensures LStrip(s) == "" || !IsSpace(LStrip(s)[0])
  {
    if |s| > 0 && IsSpace(s[0]) {
      LStripSpec(s[1..]);
      var k := |s| - |LStrip(s)|;
      assert forall i :: 1 <= i < k ==> s[..k][i] == s[1..][..k - 1][i - 1];
    }
  }

  /** Trailing stripping keeps the longest prefix of `s` that does not end
      with a space, and drops only spaces. */
  lemma {:induction false} RStripSpec(s: string)
    ensures |RStrip(s)| <= |s| && RStrip(s) == s[..|RStrip(s)|]
    ensures AllSpace(s[|RStrip(s)|..])
    ensures RStrip(s) == "" || !IsSpace(RStrip(s)[|RStrip(s)| - 1])
  {
    if |s| > 0 && IsSpace(s[|s| - 1]) {
      RStripSpec(s[..|s| - 1]);
      var k := |RStrip(s)|;
      assert s[k..] == s[..|s| - 1][k..] + [s[|s| - 1]];
    }
  }

  /** Python's `s.strip()`. */
  function Strip(s: string): string {
    RStrip(LStrip(s))
  }

  /** The decision rule as both copies of the loop write it:
      `predicted.strip().startswith("*")`. */
  predicate StripStartsWithStar(predicted: string) {
    var t := Strip(predicted);
    |t| > 0 && t[0] == '*'
  }

  /** The same rule read directly: skipping leading whitespace, the first
      character is a star. */
  predicate IsPlaceholder(p: string) {
    PlaceholderFrom(p, 0)
  }

  /** Skipping whitespace from position `k` on, the first character is a star. */
  predicate PlaceholderFrom(p: string, k: nat)
    decreases |p| - k
  {
    k < |p| && (p[k] == '*' || (IsSpace(p[k]) && PlaceholderFrom(p, k + 1)))
  }

  /** Stripping leaves nothing exactly when the text is all whitespace. */
  lemma StripEmptyIff(s: string)
    ensures Strip(s) == "" <==> AllSpace(s)
  {
    var t := LStrip(s);
    var k := |s| - |t|;
    LStripSpec(s);
    RStripSpec(t);
    if |t| > 0 {
      assert s[k] == t[0];
    }
    if Strip(s) == "" {
      assert t[|RStrip(t)|..] == t;
      assert |t| == 0;
      forall i | 0 <= i < |s| ensures IsSpace(s[i]) {
        assert s[i] == s[..k][i];
      }
    }
  }

  lemma {:induction false} LStripStartsWithStar(p: string, k: nat)
    requires k <= |p|
    ensures PlaceholderFrom(p, k) <==> |LStrip(p[k..])| > 0 && LStrip(p[k..])[0] == '*'
    decreases |p| - k
  {
    if k < |p| && IsSpace(p[k]) {
      LStripStartsWithStar(p, k + 1);
      assert p[k..][1..] == p[k + 1..];
    }
  }

  /** `strip().startswith("*")` holds exactly when the first non-space
      character is a star (both directions). */
  lemma PlaceholderIff(p: string)
    ensures StripStartsWithStar(p) <==> IsPlaceholder(p)
  {
    var t := LStrip(p);
    var r := RStrip(t);
    LStripSpec(p);
    RStripSpec(t);
    LStripStartsWithStar(p, 0);
    assert p[0..] == p;
    if |t| > 0 {
      // RStrip cannot remove the first character of t, which is not a space.
      assert |r| > 0;
      assert r[0] == t[0];
    }
  }

  /** Python's `"".join(parts)`, built up the way the loop builds it. */
  function Concat(parts: seq<string>): string {
    if |parts| == 0 then "" else Concat(parts[..|parts| - 1]) + parts[|parts| - 1]
  }

  /** The text between `head` and `tail`, when `s` is framed by them. */
  function Unwrap(s: string, head: string, tail: string): (r: Option<string>)
    ensures r.Some? ==> head + r.value + tail == s
  {
    if |head| + |tail| <= |s| && s[..|head|] == head && s[|s| - |tail|..] == tail then
      var inner := s[|head|..|s| - |tail|];
      assert s == s[..|head|] + inner + s[|s| - |tail|..];
      Some(inner)
    else None
  }

  /** Framing a text and unwrapping it gives the text back. */
  lemma UnwrapWrap(head: string, x: string, tail: string)
    ensures Unwrap(head + x + tail, head, tail) == Some(x)
  {
    var s := head + x + tail;
    assert s[..|head|] == head;
    assert s[|s| - |tail|..] == tail;
    assert s[|head|..|s| - |tail|] == x;
  }
}
