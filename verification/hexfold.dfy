/**
 * The hex case-folder `sub_char_class`: a left-to-right rewrite of
 * `([0-9]*)([a-zA-Z]*)`. Each step takes a maximal run of digits and then a
 * maximal run of letters; the digits are kept and a non-empty letter run
 * becomes the bracket class `[` lower-run upper-run `]` (`craft_char_class`).
 * A character that is neither digit nor letter gives an empty match, which
 * the rewrite replaces by nothing and steps over, so it is copied as it is.
 */
module HexFold {
  import opened StrOps

  /** Length of the maximal run of digits at the start of `s`. */
  function DigitRun(s: string): (n: nat)
    ensures n <= |s|
    ensures n < |s| ==> !IsDigit(s[n])
  {
    if s != [] && IsDigit(s[0]) then 1 + DigitRun(s[1..]) else 0
  }

  /** Every character of the leading digit run is a digit. */
  lemma {:induction false} DigitRunDigits(s: string)
    ensures forall i :: 0 <= i < DigitRun(s) ==> IsDigit(s[i])
  {
    if s != [] && IsDigit(s[0]) {
      DigitRunDigits(s[1..]);
      assert forall i :: 1 <= i < DigitRun(s) ==> s[i] == s[1..][i - 1];
    }
  }

  /** Length of the maximal run of letters at the start of `s`. */
  function LetterRun(s: string): (n: nat)
    ensures n <= |s|
    ensures n < |s| ==> !IsLetter(s[n])
  {
    if s != [] && IsLetter(s[0]) then 1 + LetterRun(s[1..]) else 0
  }

  /** Every character of the leading letter run is a letter. */
  lemma {:induction false} LetterRunLetters(s: string)
    ensures forall i :: 0 <= i < LetterRun(s) ==> IsLetter(s[i])
  {
    if s != [] && IsLetter(s[0]) {
      LetterRunLetters(s[1..]);
      assert forall i :: 1 <= i < LetterRun(s) ==> s[i] == s[1..][i - 1];
    }
  }

  /** The bracket class matching a letter run in either case. */
  function Bracket(letters: string): string
  {
    "[" + Lower(letters) + Upper(letters) + "]"
  }

  /** `craft_char_class`: the digit group, then the bracket class of the letter group if it is not empty. */
  function CraftCharClass(digits: string, letters: string): (r: string)
    ensures |digits| <= |r| && r[..|digits|] == digits
    ensures letters == [] ==> r == digits
    ensures letters != [] ==> |r| == |digits| + 2 * |letters| + 2 && r[|digits|] == '[' && r[|r| - 1] == ']'
  {
    if letters != [] then digits + Bracket(letters) else digits
  }

  /** Where the match at the front of `s` ends: its digit run, then the letter run after it. */
  function MatchEnd(s: string): (n: nat)
    ensures DigitRun(s) <= n <= |s|
  {
    DigitRun(s) + LetterRun(s[DigitRun(s)..])
  }

  /** `sub_char_class`: apply `CraftCharClass` to each successive match, left to right. */
  function SubCharClass(s: string): (r: string)
    ensures |s| <= |r|
    ensures r == [] <==> s == []
    decreases |s|
  {
    if s == [] then []
    else if MatchEnd(s) == 0 then [s[0]] + SubCharClass(s[1..])
    else CraftCharClass(s[..DigitRun(s)], s[DigitRun(s)..MatchEnd(s)]) + SubCharClass(s[MatchEnd(s)..])
  }

  /** One step of the rewrite, when the match at the front is not empty. */
  lemma SubStep(s: string)
    requires s != [] && MatchEnd(s) != 0
    ensures SubCharClass(s) ==
      CraftCharClass(s[..DigitRun(s)], s[DigitRun(s)..MatchEnd(s)]) + SubCharClass(s[MatchEnd(s)..])
  {
  }

  /** Dropping a leading digit shortens the first match by that digit. */
  lemma TailStep(s: string)
    requires s != [] && IsDigit(s[0]) && MatchEnd(s) != 1
    ensures SubCharClass(s[1..]) ==
      CraftCharClass(s[1..DigitRun(s)], s[DigitRun(s)..MatchEnd(s)]) + SubCharClass(s[MatchEnd(s)..])
  {
    var t := s[1..];
    var d := DigitRun(s);
    var m := MatchEnd(s);
    assert DigitRun(t) == d - 1;
    SliceShift(s, d, |s|);
    assert MatchEnd(t) == m - 1;
    SubStep(t);
    SliceShift(s, 1, d);
    SliceShift(s, d, m);
    SliceShift(s, m, |s|);
  }

  /** Slicing the tail of `s` is slicing `s` one place further on. */
  lemma SliceShift(s: string, i: nat, j: nat)
    requires 1 <= i <= j <= |s|
    ensures s[1..][i - 1..j - 1] == s[i..j]
  {
  }

  /** A digit group that starts with a digit emits that digit first. */
  lemma CraftCons(s: string, d: nat, letters: string)
    requires 1 <= d <= |s|
    ensures CraftCharClass(s[..d], letters) == [s[0]] + CraftCharClass(s[1..d], letters)
  {
    assert s[..d] == [s[0]] + s[1..d];
    if letters != [] {
      Assoc([s[0]], s[1..d], Bracket(letters));
    }
  }

  /** Slicing a concatenation inside its first part. */
  lemma SliceAppend(a: string, b: string, l: nat)
    requires l <= |a|
    ensures (a + b)[..l] == a[..l]
    ensures (a + b)[l..] == a[l..] + b
  {
  }

  /** Concatenation is associative. */
  lemma Assoc(x: string, y: string, z: string)
    ensures (x + y) + z == x + (y + z)
  {
  }

  /** A leading digit is copied and the rest is folded on its own. */
  lemma DigitHead(s: string)
    requires s != [] && IsDigit(s[0])
    ensures SubCharClass(s) == [s[0]] + SubCharClass(s[1..])
  {
    var d := DigitRun(s);
    var m := MatchEnd(s);
    SubStep(s);
    if m != 1 {
      TailStep(s);
      CraftCons(s, d, s[d..m]);
      Assoc([s[0]], CraftCharClass(s[1..d], s[d..m]), SubCharClass(s[m..]));
    } else {
      assert CraftCharClass(s[..d], s[d..m]) == [s[0]] by {
        assert s[..d] == [s[0]];
        assert s[d..m] == [];
      }
    }
  }

  /** A leading letter run becomes one bracket class and the rest is folded on its own. */
  lemma LetterHead(s: string)
    requires s != [] && IsLetter(s[0])
    ensures SubCharClass(s) == Bracket(s[..LetterRun(s)]) + SubCharClass(s[LetterRun(s)..])
  {
    var l := LetterRun(s);
    assert DigitRun(s) == 0;
    assert s[0..] == s;
    assert MatchEnd(s) == l;
    SubStep(s);
    assert CraftCharClass(s[..0], s[0..l]) == Bracket(s[..l]) by {
      assert s[..0] == [];
      assert s[0..l] == s[..l];
    }
  }

  /** A leading character that is neither digit nor letter is copied. */
  lemma OtherHead(s: string)
    requires s != [] && !IsDigit(s[0]) && !IsLetter(s[0])
    ensures SubCharClass(s) == [s[0]] + SubCharClass(s[1..])
  {
    assert DigitRun(s) == 0;
    assert s[0..] == s;
  }

  /** Text without letters comes back unchanged: there is nothing to fold. */
  lemma {:induction false} FoldNoLetters(s: string)
    requires NoLetters(s)
    ensures SubCharClass(s) == s
  {
    if s != [] {
      if IsDigit(s[0]) { DigitHead(s); } else { OtherHead(s); }
      FoldNoLetters(s[1..]);
    }
  }

  /** A run of letters all in one piece. */
  lemma {:induction false} LetterRunAll(a: string, b: string)
    requires forall i :: 0 <= i < |a| ==> IsLetter(a[i])
    requires b == [] || !IsLetter(b[0])
    ensures LetterRun(a + b) == |a|
    decreases |a|
  {
    if a != [] {
      assert (a + b)[1..] == a[1..] + b;
      LetterRunAll(a[1..], b);
    } else {
      assert a + b == b;
    }
  }

  /** A letter run that ends inside `a` ends at the same place in `a + b`. */
  lemma {:induction false} LetterRunPrefix(a: string, b: string)
    requires LetterRun(a) < |a|
    ensures LetterRun(a + b) == LetterRun(a)
  {
    if IsLetter(a[0]) {
      assert (a + b)[1..] == a[1..] + b;
      LetterRunPrefix(a[1..], b);
    }
  }

  /** No letter run crosses the seam between `a` and `b`. */
  predicate NoRunAcross(a: string, b: string)
  {
    a == [] || b == [] || !IsLetter(a[|a| - 1]) || !IsLetter(b[0])
  }

  /**
   * Folding distributes over a concatenation when no letter run crosses the
   * seam: the matches of `a + b` are those of `a` followed by those of `b`.
   */
  lemma {:induction false} FoldConcat(a: string, b: string)
    requires NoRunAcross(a, b)
    ensures SubCharClass(a + b) == SubCharClass(a) + SubCharClass(b)
    decreases |a|
  {
    if a == [] {
      assert a + b == b;
    } else if b == [] {
      assert a + b == a;
    } else if !IsLetter(a[0]) {
      FoldConcatNonLetterHead(a, b);
    } else {
      FoldConcatLetterHead(a, b);
    }
  }

  /** `FoldConcat` when `a` starts with a digit or another non-letter. */
  lemma {:induction false} FoldConcatNonLetterHead(a: string, b: string)
    requires NoRunAcross(a, b) && a != [] && !IsLetter(a[0])
    ensures SubCharClass(a + b) == SubCharClass(a) + SubCharClass(b)
    decreases |a|, 0
  {
    var ab := a + b;
    assert ab[0] == a[0];
    SliceAppend(a, b, 1);
    assert NoRunAcross(a[1..], b);
    FoldConcat(a[1..], b);
    if IsDigit(a[0]) { DigitHead(ab); DigitHead(a); } else { OtherHead(ab); OtherHead(a); }
    Assoc([a[0]], SubCharClass(a[1..]), SubCharClass(b));
  }

  /** `FoldConcat` when `a` starts with a letter. */
  lemma {:induction false} FoldConcatLetterHead(a: string, b: string)
    requires NoRunAcross(a, b) && a != [] && IsLetter(a[0])
    ensures SubCharClass(a + b) == SubCharClass(a) + SubCharClass(b)
    decreases |a|, 1
  {
    if LetterRun(a) < |a| {
      FoldConcatShortRun(a, b);
    } else {
      FoldConcatAllLetters(a, b);
    }
  }

  /** The leading letter run of `a` ends inside `a`: only the rest of `a` meets `b`. */
  lemma {:induction false} FoldConcatShortRun(a: string, b: string)
    requires NoRunAcross(a, b) && a != [] && IsLetter(a[0]) && LetterRun(a) < |a|
    ensures SubCharClass(a + b) == SubCharClass(a) + SubCharClass(b)
    decreases |a|, 0
  {
    var ab := a + b;
    assert ab[0] == a[0];
    var l := LetterRun(a);
    LetterRunPrefix(a, b);
    SliceAppend(a, b, l);
    assert a[l..][|a[l..]| - 1] == a[|a| - 1];
    FoldConcat(a[l..], b);
    HeadSplit(ab, l, Bracket(a[..l]), a[l..] + b);
    HeadSplit(a, l, Bracket(a[..l]), a[l..]);
    Assoc(Bracket(a[..l]), SubCharClass(a[l..]), SubCharClass(b));
  }

  /** `a` is all letters and `b` does not start with one: `a` becomes one bracket class. */
  lemma FoldConcatAllLetters(a: string, b: string)
    requires NoRunAcross(a, b) && a != [] && IsLetter(a[0]) && LetterRun(a) == |a|
    ensures SubCharClass(a + b) == SubCharClass(a) + SubCharClass(b)
  {
    var ab := a + b;
    assert ab[0] == a[0];
    var l := |a|;
    LetterRunLetters(a);
    LetterRunAll(a, b);
    SliceAppend(a, b, l);
    HeadSplit(ab, l, Bracket(a), b);
    HeadSplit(a, l, Bracket(a), []);
  }

  /** `LetterHead` restated with the pieces of the split named by the caller. */
  lemma HeadSplit(s: string, l: nat, br: string, rest: string)
    requires s != [] && IsLetter(s[0]) && l == LetterRun(s)
    requires br == Bracket(s[..l]) && rest == s[l..]
    ensures SubCharClass(s) == br + SubCharClass(rest)
  {
    LetterHead(s);
  }

  /** Index of the first `]` at or after `i` in `t`, or `|t|` if there is none. */
  function CloseAt(t: string, i: nat): (k: nat)
    requires i <= |t|
    ensures i <= k <= |t|
    ensures forall m :: i <= m < k ==> t[m] != ']'
    ensures k < |t| ==> t[k] == ']'
    decreases |t| - i
  {
    if i == |t| || t[i] == ']' then i else CloseAt(t, i + 1)
  }

  /**
   * Reads a folded string back: characters outside brackets are copied and
   * a bracket class keeps the first half of its contents (the lower-case run).
   */
  function Unfold(t: string): string
    decreases |t|
  {
    if t == [] then []
    else if t[0] == '[' then
      var k := CloseAt(t, 1);
      var inner := t[1..k];
      inner[..|inner| / 2] + (if k < |t| then Unfold(t[k + 1..]) else [])
    else [t[0]] + Unfold(t[1..])
  }

  /** A class `[mid]` with no `]` inside unfolds to the first half of `mid`. */
  lemma UnfoldClass(mid: string, rest: string)
    requires forall i :: 0 <= i < |mid| ==> mid[i] != ']'
    ensures Unfold(['['] + mid + [']'] + rest) == mid[..|mid| / 2] + Unfold(rest)
  {
    var t := ['['] + mid + [']'] + rest;
    var k := |mid| + 1;
    assert t[0] == '[';
    assert forall m :: 1 <= m < k ==> t[m] == mid[m - 1];
    assert t[k] == ']';
    assert CloseAt(t, 1) == k;
    assert t[1..k] == mid;
    assert t[k + 1..] == rest;
  }

  /** The case forms of letters are letters, so never `]`. */
  lemma CaseFormsLetters(l: string)
    requires forall i :: 0 <= i < |l| ==> IsLetter(l[i])
    ensures forall i :: 0 <= i < |l| ==> IsLetter(Lower(l)[i]) && IsLetter(Upper(l)[i])
  {
    LowerAt(l);
    UpperAt(l);
    forall i | 0 <= i < |l|
      ensures IsLetter(Lower(l)[i]) && IsLetter(Upper(l)[i])
    {
      CaseFacts(l[i]);
    }
  }

  /** Inside the class of a letter run there is no `]`. */
  lemma BracketInnerOpen(l: string)
    requires forall i :: 0 <= i < |l| ==> IsLetter(l[i])
    ensures forall i :: 0 <= i < |Lower(l) + Upper(l)| ==> (Lower(l) + Upper(l))[i] != ']'
  {
    var lo, up := Lower(l), Upper(l);
    CaseFormsLetters(l);
    forall i | 0 <= i < |lo + up| ensures (lo + up)[i] != ']' {
      if i < |lo| { assert IsLetter(lo[i]); } else { assert IsLetter(up[i - |lo|]); }
    }
  }

  /** A bracket class is `[`, its contents and `]`. */
  lemma BracketShape(l: string, rest: string)
    ensures Bracket(l) + rest == ['['] + (Lower(l) + Upper(l)) + [']'] + rest
  {
  }

  /** The bracket class of a letter run reads back as the run lower-cased. */
  lemma UnfoldBracket(l: string, rest: string)
    requires l != [] && forall i :: 0 <= i < |l| ==> IsLetter(l[i])
    ensures Unfold(Bracket(l) + rest) == Lower(l) + Unfold(rest)
  {
    var mid := Lower(l) + Upper(l);
    BracketInnerOpen(l);
    UnfoldClass(mid, rest);
    BracketShape(l, rest);
    assert mid[..|mid| / 2] == Lower(l);
  }

  /**
   * Folding loses nothing but case: unfolding the folded text gives the text
   * lower-cased, so on lowercase hex it gives the hex back.
   */
  lemma {:induction false} FoldRoundTrip(s: string)
    requires forall i :: 0 <= i < |s| ==> s[i] != '['
    ensures Unfold(SubCharClass(s)) == Lower(s)
    decreases |s|, 1
  {
    if s != [] {
      if IsLetter(s[0]) {
        FoldRoundTripLetter(s);
      } else {
        FoldRoundTripOther(s);
      }
    }
  }

  /** `FoldRoundTrip` when the text starts with a letter. */
  lemma {:induction false} FoldRoundTripLetter(s: string)
    requires s != [] && IsLetter(s[0]) && forall i :: 0 <= i < |s| ==> s[i] != '['
    ensures Unfold(SubCharClass(s)) == Lower(s)
    decreases |s|, 0
  {
    var l := LetterRun(s);
    LetterRunLetters(s);
    HeadSplit(s, l, Bracket(s[..l]), s[l..]);
    UnfoldBracket(s[..l], SubCharClass(s[l..]));
    FoldRoundTrip(s[l..]);
    LowerSplit(s, l);
  }

  /** `FoldRoundTrip` when the text starts with a non-letter. */
  lemma {:induction false} FoldRoundTripOther(s: string)
    requires s != [] && !IsLetter(s[0]) && forall i :: 0 <= i < |s| ==> s[i] != '['
    ensures Unfold(SubCharClass(s)) == Lower(s)
    decreases |s|, 0
  {
    if IsDigit(s[0]) { DigitHead(s); } else { OtherHead(s); }
    FoldRoundTrip(s[1..]);
    UnfoldCons(s[0], SubCharClass(s[1..]));
    CaseFacts(s[0]);
  }

  /** A character other than `[` is copied by `Unfold`. */
  lemma UnfoldCons(c: char, x: string)
    requires c != '['
    ensures Unfold([c] + x) == [c] + Unfold(x)
  {
    assert ([c] + x)[1..] == x;
  }

  /** Lower-casing splits at any index. */
  lemma LowerSplit(s: string, l: nat)
    requires l <= |s|
    ensures Lower(s) == Lower(s[..l]) + Lower(s[l..])
  {
    assert s == s[..l] + s[l..];
    LowerAppend(s[..l], s[l..]);
  }

  /** Lower-casing distributes over concatenation. */
  lemma LowerAppend(a: string, b: string)
    ensures Lower(a + b) == Lower(a) + Lower(b)
  {
    LowerAt(a);
    LowerAt(b);
    LowerAt(a + b);
    assert forall i :: 0 <= i < |a| + |b| ==> (a + b)[i] == if i < |a| then a[i] else b[i - |a|];
  }

  /** Characters a fold of `s` may contain: those of `s`, letters and brackets. */
  predicate FoldAlphabet(t: string, s: string)
  {
    forall c :: c in t ==> c in s || IsLetter(c) || c == '[' || c == ']'
  }

  /** A bracket class holds letters between its two brackets. */
  lemma BracketChars(l: string)
    requires forall i :: 0 <= i < |l| ==> IsLetter(l[i])
    ensures FoldAlphabet(Bracket(l), [])
  {
    CaseFormsLetters(l);
    BracketShape(l, []);
    forall c | c in Lower(l) + Upper(l) ensures IsLetter(c) {
      var i :| 0 <= i < |Lower(l) + Upper(l)| && (Lower(l) + Upper(l))[i] == c;
      if i >= |l| { assert c == Upper(l)[i - |l|]; }
    }
  }

  /**
   * Every character of the folded text is one of the input's, a letter, or a
   * bracket: folding adds no other syntax.
   */
  lemma {:induction false} FoldChars(s: string)
    ensures FoldAlphabet(SubCharClass(s), s)
  {
    if s != [] {
      if IsLetter(s[0]) {
        var l := LetterRun(s);
        LetterRunLetters(s);
        HeadSplit(s, l, Bracket(s[..l]), s[l..]);
        FoldChars(s[l..]);
        BracketChars(s[..l]);
        FoldAlphabetJoin(Bracket(s[..l]), SubCharClass(s[l..]), s, s[l..]);
      } else {
        if IsDigit(s[0]) { DigitHead(s); } else { OtherHead(s); }
        FoldChars(s[1..]);
        FoldAlphabetJoin([s[0]], SubCharClass(s[1..]), s, s[1..]);
      }
    }
  }

  /** A head that keeps to the alphabet, followed by a fold of a suffix of `s`, keeps to the alphabet of `s`. */
  lemma FoldAlphabetJoin(x: string, y: string, s: string, tail: string)
    requires |tail| <= |s| && tail == s[|s| - |tail|..]
    requires forall c :: c in x ==> c in s || IsLetter(c) || c == '[' || c == ']'
    requires FoldAlphabet(y, tail)
    ensures FoldAlphabet(x + y, s)
  {
    assert forall c :: c in tail ==> c in s;
  }

  /** The bracket class of a single letter. */
  lemma BracketOne(c: char)
    requires IsLetter(c)
    ensures Bracket([c]) == ['[', ToLower(c), ToUpper(c), ']']
  {
    assert [c][1..] == [];
  }

  /** A single letter folds to its bracket class. */
  lemma FoldOneLetter(c: char)
    requires IsLetter(c)
    ensures SubCharClass([c]) == ['[', ToLower(c), ToUpper(c), ']']
  {
    assert [c][1..] == [] && [c][..1] == [c];
    assert LetterRun([c]) == 1;
    HeadSplit([c], 1, Bracket([c]), []);
    BracketOne(c);
  }

  /** A digit followed by a letter: the digit, then the letter's bracket class. */
  lemma FoldDigitLetter(d: char, c: char)
    requires IsDigit(d) && IsLetter(c)
    ensures SubCharClass([d, c]) == [d, '[', ToLower(c), ToUpper(c), ']']
  {
    assert [d, c][1..] == [c];
    DigitHead([d, c]);
    FoldOneLetter(c);
    ConsFour(d, SubCharClass([c]), '[', ToLower(c), ToUpper(c), ']');
  }

  /** One character in front of a four-character string. */
  lemma ConsFour(d: char, x: string, a: char, b: char, c: char, e: char)
    requires x == [a, b, c, e]
    ensures [d] + x == [d, a, b, c, e]
  {
  }

  /** Hex with no letter is left alone: `A` is `41`. */
  lemma FoldDigitsExample()
    ensures SubCharClass("41") == "41"
    ensures SubCharClass("100") == "100"
  {
    FoldNoLetters("41");
    FoldNoLetters("100");
  }

  /** `z` is `7a`, which folds to `7[aA]`; `\` is `5c`, which folds to `5[cC]`. */
  lemma FoldLetterExample()
    ensures SubCharClass("7a") == "7[aA]"
    ensures SubCharClass("5c") == "5[cC]"
  {
    FoldDigitLetter('7', 'a');
    FoldDigitLetter('5', 'c');
  }

  /** Two bytes whose low digits are letters fold byte by byte. */
  lemma FoldTwoBytes(d: char, c: char, e: char, f: char)
    requires IsDigit(d) && IsLetter(c) && IsDigit(e) && IsLetter(f)
    ensures SubCharClass([d, c, e, f]) ==
      [d, '[', ToLower(c), ToUpper(c), ']', e, '[', ToLower(f), ToUpper(f), ']']
  {
    var x, y := [d, c], [e, f];
    FoldDigitLetter(d, c);
    FoldDigitLetter(e, f);
    assert [d, c, e, f] == x + y;
    FoldConcat(x, y);
    FiveAndFive(SubCharClass(x), SubCharClass(y), [d, '[', ToLower(c), ToUpper(c), ']'], [e, '[', ToLower(f), ToUpper(f), ']']);
  }

  /** Two five-character strings, concatenated. */
  lemma FiveAndFive(p: string, q: string, u: string, v: string)
    requires p == u && q == v && |u| == 5 && |v| == 5
    ensures p + q == [u[0], u[1], u[2], u[3], u[4], v[0], v[1], v[2], v[3], v[4]]
  {
  }

  /** An escaped `.` is `5c2e`: each byte's letter gets its own class. */
  lemma FoldTwoBytesExample()
    ensures SubCharClass("5c2e") == "5[cC]2[eE]"
  {
    FoldTwoBytes('5', 'c', '2', 'e');
  }
}
