/**
 * The few operations of Python's `str` that the pattern builder relies on,
 * restricted to ASCII text: the character classes behind `isdigit` and
 * `isalpha`, the case mappings behind `lower` and `upper`, and `join`.
 */
module StrOps {

  /** A character Python encodes as a single byte (code point below 128). */
  predicate IsAsciiChar(c: char) { c as int < 128 }

  predicate IsAscii(s: string) { forall i :: 0 <= i < |s| ==> IsAsciiChar(s[i]) }

  predicate IsDigit(c: char) { '0' <= c <= '9' }

  predicate IsLower(c: char) { 'a' <= c <= 'z' }

  predicate IsUpper(c: char) { 'A' <= c <= 'Z' }

  predicate IsLetter(c: char) { IsLower(c) || IsUpper(c) }

  /** Membership in `ascii_letters + digits`. */
  predicate IsAlnum(c: char) { IsLetter(c) || IsDigit(c) }

  /** `str.isdigit` on ASCII text: non-empty and every character a digit. */
  predicate IsDigitString(s: string)
    ensures IsDigitString(s) ==> s != [] && NoLetters(s)
  {
    |s| > 0 && forall i :: 0 <= i < |s| ==> IsDigit(s[i])
  }

  /** `str.isalpha` on ASCII text: non-empty and every character a letter. */
  predicate IsAlphaString(s: string)
    ensures IsAlphaString(s) ==> s != [] && IsLetter(s[0]) && !NoLetters(s)
  {
    |s| > 0 && forall i :: 0 <= i < |s| ==> IsLetter(s[i])
  }

  /** No character of `s` is a letter. */
  predicate NoLetters(s: string) { forall i :: 0 <= i < |s| ==> !IsLetter(s[i]) }

  /** ASCII lower-casing of one character. */
  function ToLower(c: char): char
  {
    if IsUpper(c) then (c as int + 32) as char else c
  }

  /** ASCII upper-casing of one character. */
  function ToUpper(c: char): char
  {
    if IsLower(c) then (c as int - 32) as char else c
  }

  /**
   * Case mapping keeps letters letters and everything else as it is; the
   * two cases of a letter are different characters, 32 code points apart.
   */
  lemma CaseFacts(c: char)
    ensures !IsUpper(ToLower(c)) && !IsLower(ToUpper(c))
    ensures IsLetter(ToLower(c)) == IsLetter(c) == IsLetter(ToUpper(c))
    ensures !IsLetter(c) ==> ToLower(c) == c && ToUpper(c) == c
    ensures IsLetter(c) ==> ToLower(c) != ToUpper(c) && ToLower(c) as int == ToUpper(c) as int + 32
    ensures IsLetter(c) ==> c == ToLower(c) || c == ToUpper(c)
    ensures IsAsciiChar(c) ==> IsAsciiChar(ToLower(c)) && IsAsciiChar(ToUpper(c))
  {
  }

  /** `str.lower` on ASCII text. */
  function Lower(s: string): (r: string)
    ensures |r| == |s|
  {
    if s == [] then [] else [ToLower(s[0])] + Lower(s[1..])
  }

  /** Lower-casing works character by character and keeps text ASCII. */
  lemma {:induction false} LowerAt(s: string)
    ensures forall i :: 0 <= i < |s| ==> Lower(s)[i] == ToLower(s[i])
    ensures IsAscii(s) ==> IsAscii(Lower(s))
  {
    if s != [] {
      CaseFacts(s[0]);
      LowerAt(s[1..]);
      assert forall i :: 1 <= i < |s| ==> Lower(s)[i] == Lower(s[1..])[i - 1] && s[i] == s[1..][i - 1];
    }
  }

  /** `str.upper` on ASCII text. */
  function Upper(s: string): (r: string)
    ensures |r| == |s|
  {
    if s == [] then [] else [ToUpper(s[0])] + Upper(s[1..])
  }

  /** Upper-casing works character by character and keeps text ASCII. */
  lemma {:induction false} UpperAt(s: string)
    ensures forall i :: 0 <= i < |s| ==> Upper(s)[i] == ToUpper(s[i])
    ensures IsAscii(s) ==> IsAscii(Upper(s))
  {
    if s != [] {
      CaseFacts(s[0]);
      UpperAt(s[1..]);
      assert forall i :: 1 <= i < |s| ==> Upper(s)[i] == Upper(s[1..])[i - 1] && s[i] == s[1..][i - 1];
    }
  }

  /** Case mapping keeps text ASCII. */
  lemma CaseKeepsAscii(s: string)
    requires IsAscii(s)
    ensures IsAscii(Lower(s)) && IsAscii(Upper(s))
  {
    LowerAt(s);
    UpperAt(s);
  }

  /** `sep.join(parts)`: the parts in order with `sep` between neighbours. */
  function Join(sep: string, parts: seq<string>): (r: string)
    ensures TotalLength(parts) <= |r|
  {
    if |parts| == 0 then []
    else if |parts| == 1 then parts[0]
    else parts[0] + sep + Join(sep, parts[1..])
  }

  /** Where part `i` starts in `Join(sep, parts)`. */
  function PartOffset(sep: string, parts: seq<string>, i: nat): nat
    requires i < |parts|
  {
    if i == 0 then 0 else |parts[0]| + |sep| + PartOffset(sep, parts[1..], i - 1)
  }

  /** The summed length of the parts. */
  function TotalLength(parts: seq<string>): nat
  {
    if parts == [] then 0 else |parts[0]| + TotalLength(parts[1..])
  }

  /** A joined string is as long as its parts plus one separator between each neighbouring pair. */
  lemma {:induction false} JoinLength(sep: string, parts: seq<string>)
    ensures |parts| > 0 ==> |Join(sep, parts)| == TotalLength(parts) + (|parts| - 1) * |sep|
    ensures |parts| == 0 ==> Join(sep, parts) == []
  {
    if |parts| > 1 {
      JoinLength(sep, parts[1..]);
    }
  }

  /**
   * Part `i` sits at `PartOffset(sep, parts, i)` in the joined string and, unless
   * it is the last part, is followed by the separator.
   */
  lemma {:induction false} JoinAt(sep: string, parts: seq<string>, i: nat)
    requires i < |parts|
    ensures PartOffset(sep, parts, i) + |parts[i]| <= |Join(sep, parts)|
    ensures Join(sep, parts)[PartOffset(sep, parts, i)..PartOffset(sep, parts, i) + |parts[i]|] == parts[i]
    ensures i + 1 < |parts| ==>
      PartOffset(sep, parts, i) + |parts[i]| + |sep| <= |Join(sep, parts)| &&
      Join(sep, parts)[PartOffset(sep, parts, i) + |parts[i]|..PartOffset(sep, parts, i) + |parts[i]| + |sep|] == sep
  {
    if |parts| > 1 {
      var tail := Join(sep, parts[1..]);
      var head := parts[0] + sep;
      assert Join(sep, parts) == head + tail;
      if i > 0 {
        JoinAt(sep, parts[1..], i - 1);
        var o := PartOffset(sep, parts[1..], i - 1);
        assert PartOffset(sep, parts, i) == |head| + o;
        assert parts[1..][i - 1] == parts[i];
      }
    }
  }

  /** Appending a part extends the joined string by a separator and that part. */
  lemma {:induction false} JoinSnoc(sep: string, parts: seq<string>, p: string)
    ensures Join(sep, parts + [p]) == if parts == [] then p else Join(sep, parts) + sep + p
  {
    if |parts| > 1 {
      assert (parts + [p])[1..] == parts[1..] + [p];
      JoinSnoc(sep, parts[1..], p);
    } else if |parts| == 1 {
      assert (parts + [p])[1..] == [p];
    }
  }

  /** `''.join`: appending a part appends its text. */
  lemma ConcatSnoc(parts: seq<string>, p: string)
    ensures Join("", parts + [p]) == Join("", parts) + p
  {
    JoinSnoc("", parts, p);
    if parts == [] {
      assert [] + p == p;
    } else {
      assert Join("", parts) + "" == Join("", parts);
    }
  }

  /** A prefix one longer is the prefix and the next character. */
  lemma TakeSnoc(s: string, i: nat)
    requires i < |s|
    ensures s[..i + 1] == s[..i] + [s[i]]
  {
  }
}
