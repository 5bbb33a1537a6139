/**
 * `canonicalize`: the pattern for a whole text. ASCII letters and digits are
 * copied as they are unless `full_ascii` is set; every other character is
 * escaped and expanded by a builder; the fragments are concatenated in order
 * and, in case-insensitive mode, prefixed once with the inline flag `(?i)`.
 */
module Canonicalizer {
  import opened StrOps
  import opened Hex
  import opened HexFold
  import opened Escaping
  import opened CaseBuilders

  /** The inline flag that turns on case-insensitive matching. */
  const CaseInsensitiveFlag: string := "(?i)"

  /**
   * The fragment emitted for one character: the character itself when it is
   * in the exclusion set (`ascii_letters + digits`, empty under `full_ascii`),
   * otherwise the builder's pattern for its escaped form.
   */
  function Fragment(c: char, fullAscii: bool, caseInsensitive: bool): (r: string)
    requires IsAsciiChar(c)
    ensures !fullAscii && IsAlnum(c) ==> r == [c]
    ensures fullAscii || !IsAlnum(c) ==> 6 <= |r| && r[..3] == "(?:" && r[|r| - 1] == ')'
  {
    if !fullAscii && IsAlnum(c) then [c]
    else if caseInsensitive then SplitCase(Escape(c))
    else SingleCase(Escape(c))
  }

  /** The fragments of the characters of `text`, concatenated in order. */
  function Expansion(text: string, fullAscii: bool, caseInsensitive: bool): (r: string)
    requires IsAscii(text)
    ensures |text| <= |r|
    ensures r == [] <==> text == []
    decreases |text|
  {
    if text == [] then [] else Fragment(text[0], fullAscii, caseInsensitive) + Expansion(text[1..], fullAscii, caseInsensitive)
  }

  /** What `canonicalize` returns. */
  function CanonicalPattern(text: string, fullAscii: bool, caseInsensitive: bool): (r: string)
    requires IsAscii(text)
    ensures caseInsensitive ==> |text| + 4 <= |r| && r[..4] == CaseInsensitiveFlag
    ensures !caseInsensitive ==> |text| <= |r|
  {
    (if caseInsensitive then CaseInsensitiveFlag else []) + Expansion(text, fullAscii, caseInsensitive)
  }

  /**
   * `canonicalize`: collects one fragment per character in `ret`, then joins
   * them with the empty separator, behind the flag in case-insensitive mode.
   */
  method Canonicalize(text: string, fullAscii: bool, caseInsensitive: bool) returns (pattern: string)
    requires IsAscii(text)
    ensures pattern == CanonicalPattern(text, fullAscii, caseInsensitive)
  {
    var ret: seq<string> := [];
    var i := 0;
    while i < |text|
      invariant 0 <= i <= |text|
      invariant IsAscii(text[..i])
      invariant Join("", ret) == Expansion(text[..i], fullAscii, caseInsensitive)
    {
      var c := text[i];
      var f;
      if !fullAscii && IsAlnum(c) {
        f := [c];
      } else if caseInsensitive {
        f := SplitCase(Escape(c));
      } else {
        f := SingleCase(Escape(c));
      }
      AppendStep(text, i, ret, f, fullAscii, caseInsensitive);
      ret := ret + [f];
      i := i + 1;
    }
    assert text[..i] == text;
    if caseInsensitive {
      pattern := CaseInsensitiveFlag + Join("", ret);
    } else {
      pattern := Join("", ret);
    }
  }

  /** One step of the loop: appending the next fragment extends the expansion by one character. */
  lemma AppendStep(text: string, i: nat, ret: seq<string>, f: string, fullAscii: bool, caseInsensitive: bool)
    requires IsAscii(text) && i < |text|
    requires IsAscii(text[..i]) && Join("", ret) == Expansion(text[..i], fullAscii, caseInsensitive)
    requires f == Fragment(text[i], fullAscii, caseInsensitive)
    ensures IsAscii(text[..i + 1])
    ensures Join("", ret + [f]) == Expansion(text[..i + 1], fullAscii, caseInsensitive)
  {
    TakeSnoc(text, i);
    ConcatSnoc(ret, f);
    ExpansionSnoc(text[..i], text[i], fullAscii, caseInsensitive);
  }

  /** Expanding one more character appends its fragment. */
  lemma ExpansionSnoc(t: string, c: char, fullAscii: bool, caseInsensitive: bool)
    requires IsAscii(t) && IsAsciiChar(c)
    ensures IsAscii(t + [c])
    ensures Expansion(t + [c], fullAscii, caseInsensitive) == Expansion(t, fullAscii, caseInsensitive) + Fragment(c, fullAscii, caseInsensitive)
  {
    ExpansionConcat(t, [c], fullAscii, caseInsensitive);
    assert [c][1..] == [];
    assert Expansion([c], fullAscii, caseInsensitive) == Fragment(c, fullAscii, caseInsensitive) + [];
  }

  /** The expansion of a concatenation is the concatenation of the expansions: one fragment per character, in order. */
  lemma {:induction false} ExpansionConcat(a: string, b: string, fullAscii: bool, caseInsensitive: bool)
    requires IsAscii(a) && IsAscii(b)
    ensures IsAscii(a + b)
    ensures Expansion(a + b, fullAscii, caseInsensitive) == Expansion(a, fullAscii, caseInsensitive) + Expansion(b, fullAscii, caseInsensitive)
    decreases |a|
  {
    if a == [] {
      assert a + b == b;
    } else {
      assert (a + b)[0] == a[0] && (a + b)[1..] == a[1..] + b;
      ExpansionConcat(a[1..], b, fullAscii, caseInsensitive);
      Assoc(Fragment(a[0], fullAscii, caseInsensitive), Expansion(a[1..], fullAscii, caseInsensitive), Expansion(b, fullAscii, caseInsensitive));
    }
  }

  /** Letters and digits pass through unchanged when `full_ascii` is off. */
  lemma {:induction false} ExpansionAlnum(text: string, caseInsensitive: bool)
    requires IsAscii(text) && forall i :: 0 <= i < |text| ==> IsAlnum(text[i])
    ensures Expansion(text, false, caseInsensitive) == text
    decreases |text|
  {
    if text != [] {
      ExpansionAlnum(text[1..], caseInsensitive);
    }
  }

  /**
   * An alphanumeric text is its own pattern in case-sensitive mode and its
   * own pattern behind the flag in case-insensitive mode.
   */
  lemma CanonicalAlnum(text: string)
    requires IsAscii(text) && forall i :: 0 <= i < |text| ==> IsAlnum(text[i])
    ensures CanonicalPattern(text, false, false) == text
    ensures CanonicalPattern(text, false, true) == "(?i)" + text
  {
    ExpansionAlnum(text, false);
    ExpansionAlnum(text, true);
  }

  /**
   * An expanded character becomes an alternation of its escaped literal and
   * percent forms that read back as the hex of its escaped form; a letter in
   * case-insensitive mode gets one percent form per case.
   */
  lemma FragmentForms(c: char, fullAscii: bool, caseInsensitive: bool)
    requires IsAsciiChar(c) && (fullAscii || !IsAlnum(c))
    ensures !caseInsensitive || !IsLetter(c) ==>
      Fragment(c, fullAscii, caseInsensitive) == "(?:" + Escape(c) + "|%" + FoldedHex(Escape(c)) + ")" &&
      Unfold(FoldedHex(Escape(c))) == ToHex(Escape(c))
    ensures caseInsensitive && IsLetter(c) ==>
      Fragment(c, fullAscii, caseInsensitive) ==
        "(?:" + [c] + "|%" + FoldedHex([ToLower(c)]) + "|%" + FoldedHex([ToUpper(c)]) + ")" &&
      Unfold(FoldedHex([ToLower(c)])) == ToHex([ToLower(c)]) &&
      Unfold(FoldedHex([ToUpper(c)])) == ToHex([ToUpper(c)])
  {
    var e := Escape(c);
    if caseInsensitive && IsLetter(c) {
      EscapeFacts(c);
      CaseFacts(c);
      assert Lower([c]) == [ToLower(c)] && Upper([c]) == [ToUpper(c)];
      assert IsAlphaString([c]);
      SplitCaseLetterForms(c);
    } else {
      FoldedHexDecodes(e);
      SingleCaseUniform(e);
      if caseInsensitive {
        EscapeFacts(c);
        SplitCaseWithoutLetters(e);
      }
    }
  }

  /** The flag `(?i` starting at index `k` of `s`. */
  predicate FlagAt(s: string, k: nat)
    requires k + 3 <= |s|
  {
    s[k] == '(' && s[k + 1] == '?' && s[k + 2] == 'i'
  }

  /** `s` holds the flag `(?i` nowhere. */
  predicate NoFlag(s: string)
  {
    forall k: nat :: k + 3 <= |s| ==> !FlagAt(s, k)
  }

  /** No flag can straddle the seam of `a + b`. */
  predicate Seamless(a: string, b: string)
  {
    a == [] || b == [] || (a[|a| - 1] != '(' && a[|a| - 1] != '?') || (b[0] != '?' && b[0] != 'i')
  }

  /** Two flag-free strings with a seamless join give a flag-free concatenation. */
  lemma NoFlagConcat(a: string, b: string)
    requires NoFlag(a) && NoFlag(b) && Seamless(a, b)
    ensures NoFlag(a + b)
  {
    var s := a + b;
    forall k: nat | k + 3 <= |s| ensures !FlagAt(s, k) {
      if k + 3 <= |a| {
        assert !FlagAt(a, k);
      } else if k >= |a| {
        assert !FlagAt(b, k - |a|);
      } else if k + 1 == |a| {
        assert s[k] == a[|a| - 1] && s[k + 1] == b[0];
      } else {
        assert s[k + 1] == a[|a| - 1] && s[k + 2] == b[0];
      }
    }
  }

  /** Text without `(` holds no flag. */
  lemma NoFlagWithoutParen(s: string)
    requires forall i :: 0 <= i < |s| ==> s[i] != '('
    ensures NoFlag(s)
  {
  }

  /** The folded percent form holds no `(`. */
  lemma FoldedHexNoParen(c: string)
    requires IsAscii(c)
    ensures forall i :: 0 <= i < |FoldedHex(c)| ==> FoldedHex(c)[i] != '('
  {
    var h := ToHex(c);
    HexIsLowercase(h);
    FoldChars(h);
    forall i | 0 <= i < |FoldedHex(c)| ensures FoldedHex(c)[i] != '(' {
      var x := FoldedHex(c)[i];
      assert x in SubCharClass(h);
      if x in h {
        var j :| 0 <= j < |h| && h[j] == x;
      }
    }
  }

  /** `(?:lit|%h)` with a short literal and no `(` in `h` holds no flag. */
  lemma NoFlagAlternation(lit: string, h: string)
    requires |lit| <= 2 && forall i :: 0 <= i < |h| ==> h[i] != '('
    ensures NoFlag("(?:" + lit + "|%" + h + ")")
  {
    NoFlagWithoutParen(h);
    assert NoFlag("(?:");
    NoFlagConcat("(?:", lit);
    NoFlagConcat("(?:" + lit, "|%");
    NoFlagConcat("(?:" + lit + "|%", h);
    NoFlagConcat("(?:" + lit + "|%" + h, ")");
  }

  /** `(?:lit|%h|%g)` with a short literal and no `(` in `h` or `g` holds no flag. */
  lemma NoFlagAlternation3(lit: string, h: string, g: string)
    requires |lit| <= 2 && forall i :: 0 <= i < |h| ==> h[i] != '('
    requires forall i :: 0 <= i < |g| ==> g[i] != '('
    ensures NoFlag("(?:" + lit + "|%" + h + "|%" + g + ")")
  {
    NoFlagWithoutParen(h);
    NoFlagWithoutParen(g);
    assert NoFlag("(?:");
    NoFlagConcat("(?:", lit);
    NoFlagConcat("(?:" + lit, "|%");
    NoFlagConcat("(?:" + lit + "|%", h);
    NoFlagConcat("(?:" + lit + "|%" + h, "|%");
    NoFlagConcat("(?:" + lit + "|%" + h + "|%", g);
    NoFlagConcat("(?:" + lit + "|%" + h + "|%" + g, ")");
  }

  /** A fragment holds no flag and ends in `)` or in an alphanumeric character. */
  lemma FragmentNoFlag(c: char, fullAscii: bool, caseInsensitive: bool)
    requires IsAsciiChar(c)
    ensures NoFlag(Fragment(c, fullAscii, caseInsensitive))
    ensures Fragment(c, fullAscii, caseInsensitive) != []
    ensures var f := Fragment(c, fullAscii, caseInsensitive); f[|f| - 1] == ')' || IsAlnum(f[|f| - 1])
  {
    if !fullAscii && IsAlnum(c) {
    } else {
      FragmentForms(c, fullAscii, caseInsensitive);
      if caseInsensitive && IsLetter(c) {
        LetterAlternationNoFlag(c);
      } else {
        EscapedAlternationNoFlag(c);
      }
    }
  }

  /** The three-way alternation of a letter holds no flag. */
  lemma LetterAlternationNoFlag(c: char)
    requires IsLetter(c)
    ensures NoFlag("(?:" + [c] + "|%" + FoldedHex([ToLower(c)]) + "|%" + FoldedHex([ToUpper(c)]) + ")")
  {
    CaseFacts(c);
    FoldedHexNoParen([ToLower(c)]);
    FoldedHexNoParen([ToUpper(c)]);
    NoFlagAlternation3([c], FoldedHex([ToLower(c)]), FoldedHex([ToUpper(c)]));
  }

  /** The two-way alternation of an escaped character holds no flag. */
  lemma EscapedAlternationNoFlag(c: char)
    requires IsAsciiChar(c)
    ensures NoFlag("(?:" + Escape(c) + "|%" + FoldedHex(Escape(c)) + ")")
  {
    FoldedHexNoParen(Escape(c));
    NoFlagAlternation(Escape(c), FoldedHex(Escape(c)));
  }

  /** No expansion holds the flag. */
  lemma {:induction false} ExpansionNoFlag(text: string, fullAscii: bool, caseInsensitive: bool)
    requires IsAscii(text)
    ensures NoFlag(Expansion(text, fullAscii, caseInsensitive))
    decreases |text|
  {
    if text != [] {
      FragmentNoFlag(text[0], fullAscii, caseInsensitive);
      ExpansionNoFlag(text[1..], fullAscii, caseInsensitive);
      NoFlagConcat(Fragment(text[0], fullAscii, caseInsensitive), Expansion(text[1..], fullAscii, caseInsensitive));
    }
  }

  /**
   * The case-insensitive flag appears exactly once, at the very start, in
   * case-insensitive mode, and nowhere otherwise, however many characters
   * were expanded.
   */
  lemma FlagOnce(text: string, fullAscii: bool, caseInsensitive: bool)
    requires IsAscii(text)
    ensures var p := CanonicalPattern(text, fullAscii, caseInsensitive);
      forall k: nat :: k + 3 <= |p| ==> (FlagAt(p, k) <==> caseInsensitive && k == 0)
  {
    var e := Expansion(text, fullAscii, caseInsensitive);
    ExpansionNoFlag(text, fullAscii, caseInsensitive);
    if caseInsensitive {
      var p := CaseInsensitiveFlag + e;
      forall k: nat | k + 3 <= |p| ensures FlagAt(p, k) <==> k == 0 {
        if k >= 4 {
          assert !FlagAt(e, k - 4);
        }
      }
    } else {
      assert CanonicalPattern(text, fullAscii, caseInsensitive) == e;
    }
  }

  /** A one-character text expands to that character's fragment. */
  lemma ExpansionOne(c: char, fullAscii: bool, caseInsensitive: bool)
    requires IsAsciiChar(c)
    ensures Expansion([c], fullAscii, caseInsensitive) == Fragment(c, fullAscii, caseInsensitive)
  {
    assert [c][1..] == [];
    assert Expansion([c], fullAscii, caseInsensitive) == Fragment(c, fullAscii, caseInsensitive) + [];
  }

  /**
   * The docstring's examples for `z` with every character expanded: the
   * two-way pattern, and the three-way one behind the flag.
   */
  lemma CanonicalizeZExample()
    ensures CanonicalPattern("z", true, false) == "(?:z|%7[aA])"
    ensures CanonicalPattern("z", true, true) == "(?i)(?:z|%7[aA]|%5[aA])"
  {
    ExpansionOne('z', true, false);
    ExpansionOne('z', true, true);
    EscapeAlnum('z');
    SingleCaseExample();
    SplitCaseExample();
    FlagLiteral(CanonicalPattern("z", true, true), Expansion("z", true, true));
  }

  /** The flag in front of the three-way `z` pattern, with the pattern named by the caller. */
  lemma FlagLiteral(p: string, e: string)
    requires p == CaseInsensitiveFlag + e && e == "(?:z|%7[aA]|%5[aA])"
    ensures p == "(?i)(?:z|%7[aA]|%5[aA])"
  {
  }

  /**
   * A punctuation character outside the special set is kept bare in the
   * literal: `!` (byte 0x21, no hex letter) becomes `(?:!|%21)`.
   */
  lemma CanonicalizeBangExample()
    ensures CanonicalPattern("!", false, false) == "(?:!|%21)"
  {
    assert '!' !in Special && !IsAlnum('!') && ByteHex('!') == "21";
    assert Escape('!') == "!" && !IsDigitString("!") && NoLetters("21");
    ExpansionOne('!', false, false);
    assert ToHex("!") == ByteHex('!') + ToHex([]);
    FoldNoLetters("21");
    BangLiteral(CanonicalPattern("!", false, false), FoldedHex("!"));
  }

  /** The `!` pattern spelled out, with its pieces named by the caller. */
  lemma BangLiteral(p: string, h: string)
    requires p == "(?:" + "!" + "|%" + h + ")" && h == "21"
    ensures p == "(?:!|%21)"
  {
  }

  /** Letters around a metacharacter stay bare while the metacharacter is quoted and expanded. */
  lemma CanonicalizeDotExample()
    ensures CanonicalPattern("a.b", false, false) == "a(?:\\.|%5[cC]2[eE])b"
  {
    ExpansionThree('a', '.', 'b', false, false);
    DotFacts();
    SingleCaseDotExample();
    DotPatternLiteral(CanonicalPattern("a.b", false, false), Fragment('a', false, false), Fragment('.', false, false), Fragment('b', false, false));
  }

  /** A three-character text expands to its three fragments in order. */
  lemma ExpansionThree(x: char, y: char, z: char, fullAscii: bool, caseInsensitive: bool)
    requires IsAsciiChar(x) && IsAsciiChar(y) && IsAsciiChar(z)
    ensures IsAscii([x, y, z])
    ensures Expansion([x, y, z], fullAscii, caseInsensitive) ==
      Fragment(x, fullAscii, caseInsensitive) + Fragment(y, fullAscii, caseInsensitive) + Fragment(z, fullAscii, caseInsensitive)
  {
    assert [x, y, z] == [x] + [y] + [z];
    ExpansionConcat([x], [y], fullAscii, caseInsensitive);
    ExpansionConcat([x] + [y], [z], fullAscii, caseInsensitive);
    ExpansionOne(x, fullAscii, caseInsensitive);
    ExpansionOne(y, fullAscii, caseInsensitive);
    ExpansionOne(z, fullAscii, caseInsensitive);
  }

  /** The `a.b` pattern spelled out, with its fragments named by the caller. */
  lemma DotPatternLiteral(p: string, a: string, d: string, b: string)
    requires p == [] + (a + d + b) && a == "a" && b == "b" && d == "(?:\\.|%5[cC]2[eE])"
    ensures p == "a(?:\\.|%5[cC]2[eE])b"
  {
  }
}
