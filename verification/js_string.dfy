/**
 * The two JavaScript string built-ins the utilities rely on:
 * `String.prototype.split` with a non-empty string separator and
 * `Array.prototype.join`. Strings are sequences of characters.
 */
module JsString {

  /** `key` occurs in `s` starting at index `j`. */
  predicate MatchAt(s: string, key: string, j: nat)
  {
    j + |key| <= |s| && s[j..j + |key|] == key
  }

  /** `key` does not occur anywhere in `s`. */
  predicate KeyFree(s: string, key: string)
  {
    forall j: nat :: j < |s| ==> !MatchAt(s, key, j)
  }

  /**
   * `s.split(key)` for a non-empty separator: `s` is cut at every
   * occurrence of `key`, searching left to right and resuming after each
   * occurrence, so occurrences never overlap. There is always at least one
   * part; the empty string splits into `[""]`.
   */
  function Split(s: string, key: string): (parts: seq<string>)
    requires |key| > 0
    ensures |parts| >= 1
    decreases |s|
  {
    if |s| < |key| then [s]
    else if s[..|key|] == key then [""] + Split(s[|key|..], key)
    else
      var rest := Split(s[1..], key);
      [[s[0]] + rest[0]] + rest[1..]
  }

  /** `parts.join(sep)`. */
  function Join(parts: seq<string>, sep: string): string
  {
    if |parts| == 0 then ""
    else if |parts| == 1 then parts[0]
    else parts[0] + sep + Join(parts[1..], sep)
  }

  /** The first part is where the joined string begins. */
  lemma JoinHead(parts: seq<string>, sep: string)
    requires |parts| > 0
    ensures parts[0] <= Join(parts, sep)
  {
  }

  /** Number of occurrences of the character `c` in `s`. */
  function Occurrences(s: string, c: char): nat
  {
    if |s| == 0 then 0
    else (if s[0] == c then 1 else 0) + Occurrences(s[1..], c)
  }

  lemma MatchShift(s: string, key: string, j: nat)
    requires |s| > 0
    ensures MatchAt(s, key, j + 1) <==> MatchAt(s[1..], key, j)
  {
    if j + 1 + |key| <= |s| {
      assert s[j + 1..j + 1 + |key|] == s[1..][j..j + |key|];
    }
  }

  /** Joining the parts with the separator gives back the split string. */
  lemma {:induction false} SplitJoin(s: string, key: string)
    requires |key| > 0
    ensures Join(Split(s, key), key) == s
    decreases |s|
  {
    if |s| < |key| {
    } else if s[..|key|] == key {
      var rest := Split(s[|key|..], key);
      SplitJoin(s[|key|..], key);
      assert ([""] + rest)[1..] == rest;
      assert s == key + s[|key|..];
    } else {
      SplitJoin(s[1..], key);
      JoinGrowHead([s[0]], Split(s[1..], key), key);
      assert s == [s[0]] + s[1..];
    }
  }

  /** Putting `x` in front of the first part puts it in front of the joined string. */
  lemma JoinGrowHead(x: string, parts: seq<string>, sep: string)
    requires |parts| > 0
    ensures Join([x + parts[0]] + parts[1..], sep) == x + Join(parts, sep)
  {
    if |parts| > 1 {
      assert ([x + parts[0]] + parts[1..])[1..] == parts[1..];
    }
  }

  /**
   * The first part is the prefix of `s` before the first occurrence of
   * `key`, and there is a second part exactly when `key` occurs.
   */
  lemma {:induction false} SplitHead(s: string, key: string)
    requires |key| > 0
    ensures var parts := Split(s, key);
      && parts[0] <= s
      && (forall j: nat :: j < |parts[0]| ==> !MatchAt(s, key, j))
      && (|parts| > 1 <==> MatchAt(s, key, |parts[0]|))
    decreases |s|
  {
    var parts := Split(s, key);
    if |s| < |key| {
    } else if s[..|key|] == key {
    } else {
      var rest := Split(s[1..], key);
      SplitHead(s[1..], key);
      assert parts[0] == [s[0]] + rest[0];
      forall j: nat | j < |parts[0]|
        ensures !MatchAt(s, key, j)
      {
        if j > 0 {
          MatchShift(s, key, j - 1);
        }
      }
      MatchShift(s, key, |rest[0]|);
    }
  }

  /** A string without the separator splits into itself alone. */
  lemma SplitKeyFree(s: string, key: string)
    requires |key| > 0
    requires KeyFree(s, key)
    ensures Split(s, key) == [s]
  {
    SplitHead(s, key);
    SplitJoin(s, key);
  }

  /**
   * Whatever precedes the first occurrence of `key` becomes the first part
   * and does not influence the others.
   */
  lemma {:induction false} SplitAfterLead(lead: string, key: string, rest: string)
    requires |key| > 0
    requires forall j: nat :: j < |lead| ==> !MatchAt(lead + key + rest, key, j)
    ensures Split(lead + key + rest, key) == [lead] + Split(rest, key)
    decreases |lead|
  {
    var s := lead + key + rest;
    if |lead| == 0 {
      assert s == key + rest;
      assert s[..|key|] == key;
      assert s[|key|..] == rest;
    } else {
      assert !MatchAt(s, key, 0);
      assert s[..|key|] != key;
      assert s[1..] == lead[1..] + key + rest;
      forall j: nat | j < |lead[1..]|
        ensures !MatchAt(lead[1..] + key + rest, key, j)
      {
        MatchShift(s, key, j);
      }
      SplitAfterLead(lead[1..], key, rest);
      assert [s[0]] + lead[1..] == lead;
    }
  }

  /** No part contains the separator. */
  lemma {:induction false} SplitPartsKeyFree(s: string, key: string)
    requires |key| > 0
    ensures forall i :: 0 <= i < |Split(s, key)| ==> KeyFree(Split(s, key)[i], key)
    decreases |s|
  {
    var parts := Split(s, key);
    if |s| < |key| {
      forall j: nat ensures !MatchAt(s, key, j) { }
    } else if s[..|key|] == key {
      SplitPartsKeyFree(s[|key|..], key);
      forall j: nat ensures !MatchAt("", key, j) { }
    } else {
      var rest := Split(s[1..], key);
      SplitPartsKeyFree(s[1..], key);
      SplitHead(s[1..], key);
      var first := [s[0]] + rest[0];
      assert first <= s;
      forall j: nat
        ensures !MatchAt(first, key, j)
      {
        if j == 0 {
          if |key| <= |first| {
            assert first[..|key|] == s[..|key|];
          }
        } else {
          MatchShift(first, key, j - 1);
          assert first[1..] == rest[0];
        }
      }
      forall i | 0 <= i < |parts|
        ensures KeyFree(parts[i], key)
      {
        if i > 0 {
          assert parts[i] == rest[i];
        }
      }
    }
  }

  /** Splitting on one character gives one more part than it has occurrences. */
  lemma {:induction false} SplitCount(s: string, c: char)
    ensures |Split(s, [c])| == Occurrences(s, c) + 1
    decreases |s|
  {
    if |s| > 0 {
      SplitCount(s[1..], c);
      assert s[..1] == [s[0]];
      assert s[1..] == s[|[c]|..];
    }
  }

  /** Joining with the empty separator appends the next part at the end. */
  lemma {:induction false} JoinEmptySnoc(parts: seq<string>, x: string)
    ensures Join(parts + [x], "") == Join(parts, "") + x
    decreases |parts|
  {
    if |parts| == 0 {
    } else if |parts| == 1 {
      assert (parts + [x])[1..] == [x];
    } else {
      JoinEmptySnoc(parts[1..], x);
      assert (parts + [x])[1..] == parts[1..] + [x];
    }
  }
}
