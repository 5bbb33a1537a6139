/**
 * Combining finished patterns: `find_all` offers them as alternatives of one
 * non-capturing group, `scan_inline` chains them with a joiner (by default
 * `.+`, "one or more characters of anything in between").
 */
module Composition {
  import opened StrOps

  /** The default joiner of `scan_inline`. */
  const DefaultJoiner: string := ".+"

  /** `find_all(*patterns)`: `(?:p1|p2|...|pn)`. */
  function FindAll(patterns: seq<string>): (r: string)
    ensures 4 <= |r| && r[..3] == "(?:" && r[|r| - 1] == ')'
    ensures patterns != [] ==> 4 + |patterns[0]| <= |r| && r[3..3 + |patterns[0]|] == patterns[0]
  {
    "(?:" + Join("|", patterns) + ")"
  }

  /** `scan_inline(*patterns, join=joiner)`: the patterns in order with the joiner between neighbours. */
  function ScanInline(patterns: seq<string>, joiner: string): (r: string)
    ensures patterns != [] ==> |patterns[0]| <= |r| && r[..|patterns[0]|] == patterns[0]
    ensures patterns == [] ==> r == []
  {
    Join(joiner, patterns)
  }

  /**
   * `find_all` is one group holding every pattern in order, separated by
   * `|`: pattern `i` starts right after the `(?:` at its join offset and,
   * unless it is the last, is followed by `|`; the group closes at the end.
   */
  lemma FindAllLayout(patterns: seq<string>, i: nat)
    requires i < |patterns|
    ensures var r := FindAll(patterns); var o := 3 + PartOffset("|", patterns, i);
      o + |patterns[i]| < |r| &&
      r[o..o + |patterns[i]|] == patterns[i] &&
      (i + 1 < |patterns| ==> r[o + |patterns[i]|] == '|')
  {
    JoinAt("|", patterns, i);
    var j := Join("|", patterns);
    var o := PartOffset("|", patterns, i);
    var r := FindAll(patterns);
    assert r == "(?:" + j + ")";
    assert r[3 + o..3 + o + |patterns[i]|] == j[o..o + |patterns[i]|];
    if i + 1 < |patterns| {
      assert j[o + |patterns[i]|..o + |patterns[i]| + 1][0] == '|';
    }
  }

  /** The group is exactly as long as its patterns plus one `|` between each neighbouring pair. */
  lemma FindAllLength(patterns: seq<string>)
    ensures |patterns| > 0 ==> |FindAll(patterns)| == 4 + TotalLength(patterns) + |patterns| - 1
    ensures |patterns| == 0 ==> FindAll(patterns) == "(?:)"
    ensures FindAll(patterns)[..3] == "(?:" && FindAll(patterns)[|FindAll(patterns)| - 1] == ')'
  {
    JoinLength("|", patterns);
  }

  /** `scan_inline` places pattern `i` at its join offset, followed by the joiner unless it is the last. */
  lemma ScanInlineLayout(patterns: seq<string>, joiner: string, i: nat)
    requires i < |patterns|
    ensures var r := ScanInline(patterns, joiner); var o := PartOffset(joiner, patterns, i);
      o + |patterns[i]| <= |r| &&
      r[o..o + |patterns[i]|] == patterns[i] &&
      (i + 1 < |patterns| ==> o + |patterns[i]| + |joiner| <= |r| && r[o + |patterns[i]|..o + |patterns[i]| + |joiner|] == joiner)
  {
    JoinAt(joiner, patterns, i);
  }

  /** The chain is as long as its patterns plus one joiner between each neighbouring pair; no pattern gives the empty string. */
  lemma ScanInlineLength(patterns: seq<string>, joiner: string)
    ensures |patterns| > 0 ==> |ScanInline(patterns, joiner)| == TotalLength(patterns) + (|patterns| - 1) * |joiner|
    ensures |patterns| == 0 ==> ScanInline(patterns, joiner) == ""
  {
    JoinLength(joiner, patterns);
  }

  /** A single pattern is wrapped by `find_all` and returned as it is by `scan_inline`. */
  lemma SinglePattern(p: string, joiner: string)
    ensures FindAll([p]) == "(?:" + p + ")"
    ensures ScanInline([p], joiner) == p
  {
  }

  /** Examples: `find_all("a", "b")` is `(?:a|b)`; `scan_inline("a", "b")` is `a.+b`. */
  lemma CompositionExamples()
    ensures FindAll(["a", "b"]) == "(?:a|b)"
    ensures ScanInline(["a", "b"], DefaultJoiner) == "a.+b"
    ensures FindAll([]) == "(?:)" && ScanInline([], DefaultJoiner) == ""
  {
    assert Join("|", ["a", "b"]) == "a" + "|" + "b" by {
      assert ["a", "b"][1..] == ["b"];
    }
    assert Join(DefaultJoiner, ["a", "b"]) == "a" + ".+" + "b" by {
      assert ["a", "b"][1..] == ["b"];
    }
  }
}
