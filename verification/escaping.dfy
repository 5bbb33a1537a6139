/**
 * Python's `re.escape` (3.7 and later) on one character: a character of a
 * fixed special set gets a backslash in front, every other character is kept.
 */
module Escaping {
  import opened StrOps

  /**
   * The characters `re.escape` quotes: the regex metacharacters
   * `( ) [ ] { } ? * + - | ^ $ \ . & ~ #`, space and the whitespace
   * controls tab, newline, carriage return, vertical tab and form feed.
   */
  const Special: set<char> := {
    '(', ')', '[', ']', '{', '}', '?', '*', '+', '-', '|', '^', '$', '\\', '.', '&', '~', '#',
    ' ', '\t', '\n', '\r', '\U{0B}', '\U{0C}'
  }

  /** `re.escape` of a one-character string. */
  function Escape(c: char): (e: string)
    ensures |e| == 2 <==> c in Special
    ensures |e| == 1 <==> c !in Special
    ensures e[|e| - 1] == c
    ensures IsAsciiChar(c) ==> IsAscii(e)
  {
    if c in Special then ['\\', c] else [c]
  }

  /**
   * Reading of a regex literal in which a backslash quotes the character
   * after it; `None` when a backslash ends the text or a special character
   * stands unquoted (it would be regex syntax, not a literal).
   */
  function Unquote(e: string): (r: Option<string>)
    decreases |e|
  {
    if e == [] then Some([])
    else if e[0] == '\\' then
      if |e| < 2 then None
      else match Unquote(e[2..]) { case Some(t) => Some([e[1]] + t) case None => None }
    else if e[0] in Special then None
    else match Unquote(e[1..]) { case Some(t) => Some([e[0]] + t) case None => None }
  }

  datatype Option<T> = None | Some(value: T)

  /** The escaped form is a literal that a regex reads as the character itself. */
  lemma EscapeUnquote(c: char)
    ensures Unquote(Escape(c)) == Some([c])
  {
    var e := Escape(c);
    if c in Special {
      assert e[0] == '\\' && e[1] == c && e[2..] == [];
      assert Unquote(e[2..]) == Some([]);
      assert [e[1]] + [] == [c];
    } else {
      assert '\\' in Special;
      assert e[0] == c && e[0] != '\\' && e[1..] == [];
      assert Unquote(e[1..]) == Some([]);
      assert Unquote(e) == Some([e[0]] + []);
      assert [e[0]] + [] == [c];
    }
  }

  /** Every special character is ASCII. */
  lemma SpecialAscii(c: char)
    requires c in Special
    ensures IsAsciiChar(c) && !IsAlnum(c)
  {
  }

  /** Different characters escape differently. */
  lemma EscapeInjective(c: char, d: char)
    ensures Escape(c) == Escape(d) ==> c == d
  {
  }

  /** Letters and digits need no quoting. */
  lemma EscapeAlnum(c: char)
    requires IsAlnum(c)
    ensures Escape(c) == [c]
  {
  }

  /** A character that is not a letter escapes to a string without letters; only `[` escapes to text holding `[`. */
  lemma EscapeFacts(c: char)
    ensures !IsLetter(c) ==> NoLetters(Escape(c)) && !IsAlphaString(Escape(c))
    ensures IsLetter(c) ==> Escape(c) == [c]
    ensures '[' !in Escape(c) || c == '['
  {
  }
}
