/**
 * The per-character pattern builders `get_single_case` and `get_split_case`.
 * Each receives a character already passed through `re.escape` and returns a
 * non-capturing alternation of the literal and of its percent-encoded form(s),
 * whose hex letters are folded to match either case.
 */
module CaseBuilders {
  import opened StrOps
  import opened Hex
  import opened HexFold
  import opened Escaping

  /** `sub_char_class(to_hex(c))`: the percent form with every hex letter run case-folded. */
  function FoldedHex(c: string): (r: string)
    requires IsAscii(c)
    ensures 2 * |c| <= |r|
  {
    SubCharClass(ToHex(c))
  }

  /** `get_single_case`: the literal or its percent form; a digit string uses the raw hex. */
  function SingleCase(c: string): (r: string)
    requires IsAscii(c)
    ensures |c| + 5 <= |r| && r[..3] == "(?:" && r[|r| - 1] == ')'
  {
    "(?:" + c + "|%" + (if IsDigitString(c) then ToHex(c) else FoldedHex(c)) + ")"
  }

  /**
   * `get_split_case`: for an alphabetic string, the literal or the percent
   * form of its lower-case or of its upper-case spelling; otherwise the
   * literal or the percent form of its lower-case spelling.
   */
  function SplitCase(c: string): (r: string)
    requires IsAscii(c)
    ensures |c| + 5 <= |r| && r[..3] == "(?:" && r[|r| - 1] == ')'
  {
    CaseKeepsAscii(c);
    if IsAlphaString(c) then
      FirstOfSeven("(?:", c, "|%", FoldedHex(Lower(c)), "|%", FoldedHex(Upper(c)), ")");
      "(?:" + c + "|%" + FoldedHex(Lower(c)) + "|%" + FoldedHex(Upper(c)) + ")"
    else
      FirstOfFive("(?:", c, "|%", FoldedHex(Lower(c)), ")");
      "(?:" + c + "|%" + FoldedHex(Lower(c)) + ")"
  }

  /** Five concatenated pieces open with the first. */
  lemma FirstOfFive(p: string, c: string, x: string, y: string, z: string)
    ensures |p| <= |p + c + x + y + z| && (p + c + x + y + z)[..|p|] == p
  {
    assert p + c + x + y + z == p + (c + x + y + z);
  }

  /** Seven concatenated pieces open with the first. */
  lemma FirstOfSeven(p: string, c: string, x: string, y: string, z: string, u: string, v: string)
    ensures |p| <= |p + c + x + y + z + u + v| && (p + c + x + y + z + u + v)[..|p|] == p
  {
    assert p + c + x + y + z + u + v == p + (c + x + y + z + u + v);
  }

  /**
   * The folded percent form reads back as the hex of `c` and so as `c`
   * itself: folding only widens the case of hex letters.
   */
  lemma FoldedHexDecodes(c: string)
    requires IsAscii(c)
    ensures Unfold(FoldedHex(c)) == ToHex(c)
    ensures FromHex(Unfold(FoldedHex(c))) == c
  {
    HexIsLowercase(ToHex(c));
    FoldRoundTrip(ToHex(c));
    HexRoundTrip(c);
  }

  /** Different strings have different folded percent forms. */
  lemma FoldedHexInjective(c: string, d: string)
    requires IsAscii(c) && IsAscii(d)
    ensures FoldedHex(c) == FoldedHex(d) ==> c == d
  {
    FoldedHexDecodes(c);
    FoldedHexDecodes(d);
  }

  /**
   * The raw-hex shortcut for digit strings gives the same pattern as folding:
   * the hex of a digit is `3` and the digit, with no letter to fold.
   */
  lemma SingleCaseUniform(c: string)
    requires IsAscii(c)
    ensures SingleCase(c) == "(?:" + c + "|%" + FoldedHex(c) + ")"
  {
    if IsDigitString(c) {
      DigitsHexHasNoLetters(c);
      FoldNoLetters(ToHex(c));
    }
  }

  /** On text without letters the split builder is the single builder: lower-casing changes nothing. */
  lemma SplitCaseWithoutLetters(c: string)
    requires IsAscii(c) && NoLetters(c)
    ensures SplitCase(c) == SingleCase(c)
  {
    LowerAt(c);
    forall i | 0 <= i < |c| ensures Lower(c)[i] == c[i] {
      CaseFacts(c[i]);
    }
    assert Lower(c) == c;
    assert !IsAlphaString(c) by {
      if |c| > 0 { assert !IsLetter(c[0]); }
    }
    SingleCaseUniform(c);
  }

  /**
   * In the split builder the percent forms of a letter do not depend on the
   * case it was written in: the two cases of a letter give patterns that
   * differ only in the literal.
   */
  lemma SplitCaseCaseBlind(x: char)
    requires IsLetter(x)
    ensures |SplitCase([ToLower(x)])| == |SplitCase([ToUpper(x)])| >= 4
    ensures SplitCase([ToLower(x)])[4..] == SplitCase([ToUpper(x)])[4..]
  {
    CaseFacts(x);
    var lo, up := ToLower(x), ToUpper(x);
    CaseFacts(lo);
    CaseFacts(up);
    assert Lower([lo]) == [lo] == Lower([up]);
    assert Upper([lo]) == [up] == Upper([up]);
    var tail := "|%" + FoldedHex([lo]) + "|%" + FoldedHex([up]) + ")";
    SplitLetterShape(lo, tail);
    SplitLetterShape(up, tail);
  }

  /** The split pattern of a letter: the literal, then the rest of the group. */
  lemma SplitLetterShape(y: char, tail: string)
    requires IsLetter(y)
    requires tail == "|%" + FoldedHex(Lower([y])) + "|%" + FoldedHex(Upper([y])) + ")"
    ensures SplitCase([y]) == "(?:" + [y] + tail
  {
    assert IsAlphaString([y]);
    Regroup("(?:", [y], "|%", FoldedHex(Lower([y])), "|%", FoldedHex(Upper([y])), ")");
  }

  /** Regrouping the seven pieces of a three-way alternation after its literal. */
  lemma Regroup(p: string, c: string, s1: string, a: string, s2: string, b: string, s3: string)
    ensures p + c + s1 + a + s2 + b + s3 == p + c + (s1 + a + s2 + b + s3)
  {
  }

  /**
   * For a letter the split builder offers two distinct percent forms, one
   * reading back as the lower-case letter and one as the upper-case letter.
   */
  lemma SplitCaseLetterForms(x: char)
    requires IsLetter(x)
    ensures Unfold(FoldedHex([ToLower(x)])) == ToHex([ToLower(x)]) && FromHex(Unfold(FoldedHex([ToLower(x)]))) == [ToLower(x)]
    ensures Unfold(FoldedHex([ToUpper(x)])) == ToHex([ToUpper(x)]) && FromHex(Unfold(FoldedHex([ToUpper(x)]))) == [ToUpper(x)]
    ensures FoldedHex([ToLower(x)]) != FoldedHex([ToUpper(x)])
  {
    CaseFacts(x);
    FoldedHexDecodes([ToLower(x)]);
    FoldedHexDecodes([ToUpper(x)]);
    FoldedHexInjective([ToLower(x)], [ToUpper(x)]);
  }

  /** A character whose byte is a digit then a hex letter: the letter gets a class. */
  lemma FoldedByte(c: char, d: char, x: char)
    requires IsAsciiChar(c) && IsDigit(d) && IsLetter(x) && ByteHex(c) == [d, x]
    ensures FoldedHex([c]) == [d, '[', ToLower(x), ToUpper(x), ']']
  {
    assert [c][1..] == [];
    assert ToHex([c]) == ByteHex(c) + [];
    assert ToHex([c]) == [d, x];
    FoldDigitLetter(d, x);
  }

  /** The docstring's case-sensitive example: `z` becomes `(?:z|%7[aA])`. */
  lemma SingleCaseExample()
    ensures SingleCase("z") == "(?:z|%7[aA])"
  {
    ZFacts();
    FoldedByte('z', '7', 'a');
    SingleLiteral(SingleCase("z"), FoldedHex("z"));
  }

  /** The docstring's case-insensitive example: `z` becomes `(?:z|%7[aA]|%5[aA])`. */
  lemma SplitCaseExample()
    ensures SplitCase("z") == "(?:z|%7[aA]|%5[aA])"
  {
    ZFacts();
    FoldedByte('z', '7', 'a');
    FoldedByte('Z', '5', 'a');
    SplitLiteral(SplitCase("z"), FoldedHex("z"), FoldedHex("Z"));
  }

  /** Case and byte facts about `z` and `Z`. */
  lemma ZFacts()
    ensures Lower("z") == "z" && Upper("z") == "Z"
    ensures IsAlphaString("z") && !IsDigitString("z")
    ensures ByteHex('z') == "7a" && ByteHex('Z') == "5a"
    ensures ToLower('a') == 'a' && ToUpper('a') == 'A'
  {
  }

  /** The two-way `z` pattern spelled out, with its pieces named by the caller. */
  lemma SingleLiteral(p: string, f: string)
    requires p == "(?:" + "z" + "|%" + f + ")" && f == ['7', '[', 'a', 'A', ']']
    ensures p == "(?:z|%7[aA])"
  {
  }

  /** The three-way `z` pattern spelled out, with its pieces named by the caller. */
  lemma SplitLiteral(p: string, f: string, g: string)
    requires p == "(?:" + "z" + "|%" + f + "|%" + g + ")"
    requires f == ['7', '[', 'a', 'A', ']'] && g == ['5', '[', 'a', 'A', ']']
    ensures p == "(?:z|%7[aA]|%5[aA])"
  {
  }

  /** The hex of an escaped metacharacter starts with the backslash's byte `5c`, folded to `5[cC]`. */
  lemma EscapedHexPrefix(c: char)
    requires c in Special
    ensures IsAsciiChar(c) && FoldedHex(Escape(c)) == "5[cC]" + FoldedHex([c])
  {
    SpecialAscii(c);
    var h := ToHex([c]);
    ToHexAt([c], 0);
    assert Escape(c) == ['\\'] + [c];
    ToHexAppend(['\\'], [c]);
    BackslashHex();
    FoldConcat("5c", h);
  }

  /** A backslash is byte `5c`, which folds to `5[cC]`. */
  lemma BackslashHex()
    ensures ToHex("\\") == "5c" && SubCharClass("5c") == "5[cC]"
  {
    HexExamples();
    FoldLetterExample();
  }

  /**
   * An escaped metacharacter is quoted in the literal and its percent form
   * encodes the backslash too.
   */
  lemma SingleCaseEscaped(c: char)
    requires c in Special
    ensures IsAsciiChar(c) && SingleCase(Escape(c)) == "(?:" + ['\\', c] + "|%" + "5[cC]" + FoldedHex([c]) + ")"
  {
    EscapedHexPrefix(c);
    SingleCaseUniform(Escape(c));
    Assoc("(?:" + Escape(c) + "|%", "5[cC]", FoldedHex([c]));
  }

  /** A metacharacter example: `.` becomes `(?:\.|%5[cC]2[eE])`. */
  lemma SingleCaseDotExample()
    ensures SingleCase(Escape('.')) == "(?:\\.|%5[cC]2[eE])"
  {
    DotFacts();
    SingleCaseEscaped('.');
    FoldedByte('.', '2', 'e');
    DotLiteral(FoldedHex(['.']));
  }

  /** `.` is special and is byte `2e`. */
  lemma DotFacts()
    ensures '.' in Special && ByteHex('.') == "2e"
    ensures ToLower('e') == 'e' && ToUpper('e') == 'E'
  {
  }

  /** The `.` pattern spelled out, with its folded low byte named by the caller. */
  lemma DotLiteral(f: string)
    requires f == ['2', '[', 'e', 'E', ']']
    ensures "(?:" + ['\\', '.'] + "|%" + "5[cC]" + f + ")" == "(?:\\.|%5[cC]2[eE])"
  {
  }
}
