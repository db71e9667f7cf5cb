/**
 * `splitKatexValue`: separates a math expression that starts at a
 * delimiter (`$` by default) from the text that follows it. The text is
 * split on the delimiter; the part before the first delimiter is ignored;
 * the following segments are folded in one by one while they end in a
 * backslash (an escaped delimiter), and the first segment that does not end
 * in one is folded in last.
 */
module Katex {
  import opened JsString

  const DefaultKey := "$"

  /** The result pair `[regText, text]`. */
  datatype KatexParts = KatexParts(regText: string, text: string)

  /** `/\\$/.test(segment)`: the segment ends in a backslash. */
  predicate Escaped(segment: string)
  {
    |segment| > 0 && segment[|segment| - 1] == '\\'
  }

  /** Position of the first segment that does not end in a backslash, or the number of segments when all do. */
  function FirstUnescaped(segments: seq<string>): (k: nat)
    ensures k <= |segments|
    ensures forall j :: 0 <= j < k ==> Escaped(segments[j])
    ensures k < |segments| ==> !Escaped(segments[k])
  {
    if |segments| == 0 || !Escaped(segments[0]) then 0
    else 1 + FirstUnescaped(segments[1..])
  }

  /** What a run of escaped segments contributes: each one followed by a literal `$`. */
  function EscapedText(segments: seq<string>): string
  {
    if |segments| == 0 then ""
    else segments[0] + "$" + EscapedText(segments[1..])
  }

  /** The scan over the segments after the first one. */
  function Scan(segments: seq<string>, key: string): KatexParts
  {
    var k := FirstUnescaped(segments);
    var text := EscapedText(segments[..k]) + (if k < |segments| then segments[k] else "");
    KatexParts(key + text + (if k < |segments| then key else ""), text)
  }

  /**
   * The value `splitKatexValue(str, key)` returns. Its `text` is made of
   * segments of the split, none of which contains `key` (SplitPartsKeyFree),
   * each escaped one followed by a literal `$` (ScanEscaped).
   */
  function KatexValue(str: string, key: string): (r: KatexParts)
    requires |key| > 0
    ensures r.regText == key + r.text + key || r.regText == key + r.text
  {
    Scan(Split(str, key)[1..], key)
  }

  lemma {:induction false} EscapedTextSnoc(segments: seq<string>, last: string)
    ensures EscapedText(segments + [last]) == EscapedText(segments) + last + "$"
    decreases |segments|
  {
    if |segments| > 0 {
      assert (segments + [last])[1..] == segments[1..] + [last];
      EscapedTextSnoc(segments[1..], last);
    }
  }

  /** The scan stops at `k` when the segments before it are escaped and the one at it is not. */
  lemma StopsAt(segments: seq<string>, k: nat)
    requires k <= |segments|
    requires forall j :: 0 <= j < k ==> Escaped(segments[j])
    requires k < |segments| ==> !Escaped(segments[k])
    ensures FirstUnescaped(segments) == k
  {
  }

  /** The scanning loop; its result is the one `KatexValue` describes. */
  method SplitKatexValue(str: string, key: string) returns (regText: string, text: string)
    requires |key| > 0
    ensures KatexParts(regText, text) == KatexValue(str, key)
    ensures regText == key + text + key || regText == key + text
  {
    var arr := Split(str, key);
    regText := key;
    text := "";
    var i := 1;
    while i < |arr|
      invariant 1 <= i <= |arr|
      invariant forall j :: 1 <= j < i ==> Escaped(arr[j])
      invariant text == EscapedText(arr[1..i])
      invariant regText == key + text
    {
      if Escaped(arr[i]) {
        EscapedTextSnoc(arr[1..i], arr[i]);
        assert arr[1..i + 1] == arr[1..i] + [arr[i]];
        regText := regText + arr[i] + "$";
        text := text + arr[i] + "$";
      } else {
        regText := regText + arr[i] + key;
        text := text + arr[i];
        StopsAt(arr[1..], i - 1);
        assert arr[1..][..i - 1] == arr[1..i];
        return;
      }
      i := i + 1;
    }
    StopsAt(arr[1..], |arr| - 1);
    assert arr[1..][..|arr| - 1] == arr[1..i];
  }

  /**
   * `regText` is `text` between two delimiters when the scan stops at a
   * segment without a trailing backslash, and `text` after one delimiter
   * when every segment after the first is escaped.
   */
  lemma KatexDelimiters(str: string, key: string)
    requires |key| > 0
    ensures var segments := Split(str, key)[1..];
      var r := KatexValue(str, key);
      && ((exists j :: 0 <= j < |segments| && !Escaped(segments[j])) ==> r.regText == key + r.text + key)
      && ((forall j :: 0 <= j < |segments| ==> Escaped(segments[j])) ==> r.regText == key + r.text)
  {
    var segments := Split(str, key)[1..];
    var k := FirstUnescaped(segments);
    if k < |segments| {
      assert !Escaped(segments[k]);
    }
  }

  /** A string without the delimiter gives `[key, ""]`. */
  lemma KatexWithoutKey(str: string, key: string)
    requires |key| > 0
    requires KeyFree(str, key)
    ensures KatexValue(str, key) == KatexParts(key, "")
  {
    SplitKeyFree(str, key);
  }

  /** The text before the first delimiter is ignored. */
  lemma KatexIgnoresLead(lead: string, key: string, rest: string)
    requires |key| > 0
    requires forall j: nat :: j < |lead| ==> !MatchAt(lead + key + rest, key, j)
    ensures KatexValue(lead + key + rest, key) == KatexValue(key + rest, key)
  {
    SplitAfterLead(lead, key, rest);
    assert forall j: nat :: j < |""| ==> !MatchAt("" + key + rest, key, j);
    SplitAfterLead("", key, rest);
    assert "" + key + rest == key + rest;
  }

  /** Segments after the one that stops the scan are ignored. */
  lemma ScanIgnoresTail(segments: seq<string>, more: seq<string>, key: string)
    requires FirstUnescaped(segments) < |segments|
    ensures Scan(segments + more, key) == Scan(segments, key)
  {
    var all := segments + more;
    var k := FirstUnescaped(segments);
    var k' := FirstUnescaped(all);
    assert all[k] == segments[k];
    assert k' == k;
    assert all[..k] == segments[..k];
  }

  /**
   * An escaped segment contributes itself and a literal `$` to both
   * results, whatever the delimiter is.
   */
  lemma ScanEscaped(segment: string, segments: seq<string>, key: string)
    requires Escaped(segment)
    ensures Scan([segment] + segments, key).text == segment + "$" + Scan(segments, key).text
    ensures Scan([segment] + segments, key).regText == key + segment + "$" + Scan(segments, key).regText[|key|..]
  {
    ScanEscapedText(segment, segments, key);
    var text := Scan(segments, key).text;
    var close := if FirstUnescaped(segments) < |segments| then key else "";
    Regroup(key, segment + "$", text, close);
  }

  /** The text part of `ScanEscaped`; the scan stops at the same segment. */
  lemma ScanEscapedText(segment: string, segments: seq<string>, key: string)
    requires Escaped(segment)
    ensures Scan([segment] + segments, key).text == segment + "$" + Scan(segments, key).text
    ensures FirstUnescaped([segment] + segments) < |[segment] + segments| <==> FirstUnescaped(segments) < |segments|
  {
    var all := [segment] + segments;
    assert all[1..] == segments;
    var k := FirstUnescaped(segments);
    assert all[..k + 1][1..] == segments[..k];
    var escaped := EscapedText(segments[..k]);
    var stop := if k < |segments| then segments[k] else "";
    assert EscapedText(all[..k + 1]) == (segment + "$") + escaped;
    assert (if k + 1 < |all| then all[k + 1] else "") == stop;
    assert ((segment + "$") + escaped) + stop == (segment + "$") + (escaped + stop);
  }

  /** Concatenation regrouped the way `Scan` builds `regText`. */
  lemma Regroup(key: string, lead: string, text: string, close: string)
    ensures key + (lead + text) + close == key + lead + (key + text + close)[|key|..]
  {
    assert (key + text + close)[|key|..] == text + close;
  }

  /** The split behind the example below: `"$a+b$c".split("$")` is `["", "a+b", "c"]`. */
  lemma SplitExample()
    ensures Split("$a+b$c", "$") == ["", "a+b", "c"]
  {
    var tail := "a+b$c";
    forall j: nat | j < 3
      ensures !MatchAt("a+b" + "$" + "c", "$", j)
    {
      assert "a+b" + "$" + "c" == tail;
      assert tail[j..j + 1] == [tail[j]];
    }
    assert "c"[0..1] == "c";
    SplitKeyFree("c", "$");
    SplitAfterLead("a+b", "$", "c");
    assert "a+b" + "$" + "c" == tail;
    SplitAfterLead("", "$", tail);
    assert "" + "$" + tail == "$a+b$c";
  }

  /** `splitKatexValue("$a+b$c")` is `["$a+b$", "a+b"]`. */
  lemma KatexExample()
    ensures KatexValue("$a+b$c", DefaultKey) == KatexParts("$a+b$", "a+b")
  {
    SplitExample();
    var segments := Split("$a+b$c", DefaultKey)[1..];
    assert segments == ["a+b", "c"];
    StopsAt(segments, 0);
  }
}
