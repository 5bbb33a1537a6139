/**
 * The hex encoder `to_hex`: the lowercase hexadecimal form of a string's
 * bytes. On ASCII text every character is one byte, so every character gives
 * exactly two digits.
 */
module Hex {
  import opened StrOps

  predicate IsHexDigit(c: char) { IsDigit(c) || 'a' <= c <= 'f' }

  predicate IsHexString(s: string) { forall i :: 0 <= i < |s| ==> IsHexDigit(s[i]) }

  /** The value of a lowercase hexadecimal digit. */
  function HexValue(c: char): (v: nat)
    requires IsHexDigit(c)
    ensures v < 16
  {
    if IsDigit(c) then c as int - '0' as int else c as int - 'a' as int + 10
  }

  /** The lowercase hexadecimal digit for a value below 16, as `hexlify` writes it. */
  function HexDigit(n: nat): (c: char)
    requires n < 16
    ensures IsHexDigit(c) && HexValue(c) == n
    ensures IsDigit(c) <==> n < 10
  {
    if n < 10 then ('0' as int + n) as char else ('a' as int + n - 10) as char
  }

  /** The two digits of one ASCII character's byte: high nibble first. */
  function ByteHex(c: char): (h: string)
    requires IsAsciiChar(c)
    ensures |h| == 2 && IsHexString(h)
    ensures 16 * HexValue(h[0]) + HexValue(h[1]) == c as int
    ensures IsDigit(h[0])
  {
    [HexDigit(c as int / 16), HexDigit(c as int % 16)]
  }

  /** `to_hex`: the bytes of an ASCII string in lowercase hex, two digits per character. */
  function ToHex(s: string): (r: string)
    requires IsAscii(s)
    ensures |r| == 2 * |s|
    ensures IsHexString(r)
  {
    if s == [] then [] else ByteHex(s[0]) + ToHex(s[1..])
  }

  /** Digits `2i` and `2i+1` of the hex are the byte of character `i`: the order is kept. */
  lemma {:induction false} ToHexAt(s: string, i: nat)
    requires IsAscii(s) && i < |s|
    ensures ToHex(s)[2 * i..2 * i + 2] == ByteHex(s[i])
    ensures IsDigit(ToHex(s)[2 * i])
    ensures 16 * HexValue(ToHex(s)[2 * i]) + HexValue(ToHex(s)[2 * i + 1]) == s[i] as int
  {
    var r := ToHex(s);
    assert r == ByteHex(s[0]) + ToHex(s[1..]);
    if i > 0 {
      ToHexAt(s[1..], i - 1);
      assert r[2 * i..2 * i + 2] == ToHex(s[1..])[2 * (i - 1)..2 * (i - 1) + 2];
    }
  }

  /** Reads back the characters from pairs of hex digits (the inverse of `ToHex`). */
  function FromHex(h: string): (s: string)
    requires |h| % 2 == 0 && IsHexString(h)
    ensures |s| == |h| / 2
  {
    if h == [] then []
    else [(16 * HexValue(h[0]) + HexValue(h[1])) as char] + FromHex(h[2..])
  }

  /** Hex encoding of a concatenation is the concatenation of the encodings. */
  lemma {:induction false} ToHexAppend(a: string, b: string)
    requires IsAscii(a) && IsAscii(b)
    ensures IsAscii(a + b)
    ensures ToHex(a + b) == ToHex(a) + ToHex(b)
  {
    if a != [] {
      assert (a + b)[0] == a[0] && (a + b)[1..] == a[1..] + b;
      ToHexAppend(a[1..], b);
      calc {
        ToHex(a + b);
        ByteHex(a[0]) + ToHex(a[1..] + b);
        ByteHex(a[0]) + (ToHex(a[1..]) + ToHex(b));
        (ByteHex(a[0]) + ToHex(a[1..])) + ToHex(b);
      }
    } else {
      assert a + b == b;
    }
  }

  /** Encoding loses nothing: decoding the hex gives back the string. */
  lemma {:induction false} HexRoundTrip(s: string)
    requires IsAscii(s)
    ensures FromHex(ToHex(s)) == s
  {
    if s != [] {
      var h := ToHex(s);
      assert h == ByteHex(s[0]) + ToHex(s[1..]);
      assert h[2..] == ToHex(s[1..]);
      HexRoundTrip(s[1..]);
    }
  }

  /** Different ASCII strings have different hex encodings. */
  lemma HexInjective(s: string, t: string)
    requires IsAscii(s) && IsAscii(t)
    ensures ToHex(s) == ToHex(t) ==> s == t
  {
    HexRoundTrip(s);
    HexRoundTrip(t);
  }

  /** The hex of a decimal digit is `3` followed by that digit: it holds no letter. */
  lemma {:induction false} DigitsHexHasNoLetters(s: string)
    requires IsAscii(s)
    requires forall i :: 0 <= i < |s| ==> IsDigit(s[i])
    ensures NoLetters(ToHex(s))
  {
    if s != [] {
      assert ToHex(s) == ByteHex(s[0]) + ToHex(s[1..]);
      DigitsHexHasNoLetters(s[1..]);
    }
  }

  /** Hex digits are lowercase already and hold no bracket: lower-casing leaves the hex alone. */
  lemma HexIsLowercase(h: string)
    requires IsHexString(h)
    ensures Lower(h) == h
    ensures forall i :: 0 <= i < |h| ==> h[i] != '[' && h[i] != '(' && h[i] != '?'
  {
    LowerAt(h);
    assert forall i :: 0 <= i < |h| ==> Lower(h)[i] == h[i];
  }

  /** Examples: `z` is byte 0x7a, `\` is 0x5c, `.` is 0x2e. */
  lemma HexExamples()
    ensures ToHex("z") == "7a"
    ensures ToHex("\\") == "5c"
    ensures ToHex(".") == "2e"
    ensures ToHex("A") == "41"
  {
    assert ByteHex('z') == "7a";
    assert ByteHex('\\') == "5c";
    assert ByteHex('.') == "2e";
    assert ByteHex('A') == "41";
    assert "z"[1..] == [];
  }
}
