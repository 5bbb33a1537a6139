# canonical_re in Dafny

`canonical_re.py` builds regular-expression source text that finds a string
together with its percent-encoded and case-varied spellings. Every character
that is not an ASCII letter or digit (or every character, under `full_ascii`)
becomes a non-capturing alternation of the character itself and `%` followed
by the hex of the bytes of its `re.escape` form. In that hex, every run of hex letters becomes a
bracket class that takes either case, so `z` gives `(?:z|%7[aA])`. In
case-insensitive mode a letter gets one percent form per case,
`(?:z|%7[aA]|%5[aA])`, and the whole pattern starts with the inline flag
`(?i)`. Two helpers combine finished patterns: `find_all` puts them in one
alternation and `scan_inline` chains them with a joiner.

The model is a set of modules that follow the layers of the program:

- `StrOps` (`strops.dfy`): the ASCII parts of `str` it uses: `isdigit`,
  `isalpha`, `lower`, `upper` and `join`.
- `Hex` (`hex.dfy`): `to_hex`, and its inverse `FromHex`.
- `HexFold` (`hexfold.dfy`): `craft_char_class` and `sub_char_class`,
  written as a scan over digit runs and letter runs. `Unfold` reads a fold
  back.
- `Escaping` (`escaping.dfy`): `re.escape` on one character. `Unquote` reads
  a quoted literal back.
- `CaseBuilders` (`builders.dfy`): `get_single_case` and `get_split_case`.
- `Canonicalizer` (`canonicalizer.dfy`): `canonicalize`. It is an imperative
  method that appends one fragment per character to a list and then joins the
  list. It is proved equal to the recursive `CanonicalPattern`.
- `Composition` (`composition.dfy`): `find_all` and `scan_inline`.

Three consequences of the code that a reader might not expect:

- The code passes the character through `re.escape` before it builds both the
  literal and the hex. So for a character that `re.escape` quotes, the percent
  form encodes the backslash too: `.` becomes `(?:\.|%5[cC]2[eE])`
  (`CaseBuilders.SingleCaseDotExample`).
- The Python 3.7+ `re.escape` does not quote `!`, so `!` gives `(?:!|%21)`
  (`Canonicalizer.CanonicalizeBangExample`).
- With no patterns, `find_all` returns `(?:)` and `scan_inline` returns the
  empty string (`Composition.CompositionExamples`).

## Model

| member | source | states |
|---|---|---|
| `StrOps.IsDigitString` | canonical_re.py:25 | `str.isdigit` on ASCII text: non-empty and every character a digit; such text holds no letter |
| `StrOps.IsAlphaString` | canonical_re.py:21 | `str.isalpha` on ASCII text: non-empty and every character a letter; such text starts with a letter |
| `StrOps.Lower` | canonical_re.py:16 | ASCII `lower` keeps the length of the text; `StrOps.LowerAt` states the character at each index |
| `StrOps.Upper` | canonical_re.py:16 | ASCII `upper` keeps the length of the text; `StrOps.UpperAt` states the character at each index |
| `StrOps.CaseFacts` | canonical_re.py:16 | ASCII `lower`/`upper` keep letters letters and leave other characters alone; a letter's two cases are distinct and 32 code points apart |
| `StrOps.LowerAt` | canonical_re.py:16 | `lower` maps each character at its own index and keeps text ASCII |
| `StrOps.UpperAt` | canonical_re.py:16 | `upper` maps each character at its own index and keeps text ASCII |
| `StrOps.Join` | canonical_re.py:37-39 | `sep.join(parts)` is at least as long as all its parts together; `StrOps.JoinAt` places every part and `StrOps.JoinLength` gives the exact length |
| `StrOps.ConcatSnoc` | canonical_re.py:32 | `''.join` of a list with one more item is the old join followed by that item |
| `StrOps.JoinAt` | canonical_re.py:37-39 | in `sep.join(parts)`, part `i` sits at its offset, followed by `sep` unless it is the last part |
| `StrOps.JoinLength` | canonical_re.py:37-39 | a join is as long as its parts plus one separator per neighbouring pair; joining nothing gives the empty string |
| `Hex.ByteHex` | canonical_re.py:13 | one ASCII character becomes two hex digits whose value is its code, the first digit being decimal |
| `Hex.ToHex` | canonical_re.py:13 | `to_hex` gives exactly two hex digits per character |
| `Hex.ToHexAt` | canonical_re.py:13 | digits `2i` and `2i+1` of the hex encode character `i`: order is kept |
| `Hex.ToHexAppend` | canonical_re.py:13 | the hex of a concatenation is the concatenation of the hex |
| `Hex.HexRoundTrip` | canonical_re.py:13 | decoding the hex gives back the string |
| `Hex.HexInjective` | canonical_re.py:13 | different strings have different hex |
| `Hex.DigitsHexHasNoLetters` | canonical_re.py:13 | the hex of decimal digits holds no letter |
| `Hex.HexIsLowercase` | canonical_re.py:13 | the hex is already lower-case and holds no `[`, `(` or `?` |
| `Hex.HexExamples` | canonical_re.py:13 | `z` is `7a`, `\` is `5c`, `.` is `2e`, `A` is `41` |
| `HexFold.DigitRun` | canonical_re.py:18 | the digit group `[0-9]*` is maximal: the character after it, if any, is not a digit; `HexFold.DigitRunDigits` states that the group is all digits |
| `HexFold.DigitRunDigits` | canonical_re.py:18 | every character of the digit group is a digit |
| `HexFold.LetterRun` | canonical_re.py:18 | the letter group `[a-zA-Z]*` is maximal: the character after it, if any, is not a letter; `HexFold.LetterRunLetters` states that the group is all letters |
| `HexFold.CraftCharClass` | canonical_re.py:15-16 | `craft_char_class` starts with the digit group; it is just that group when the letter group is empty, and otherwise the group followed by a `[`...`]` class twice as long as the letters |
| `HexFold.SubCharClass` | canonical_re.py:18 | `sub_char_class` never shortens its input and is empty only for empty input; its step-by-step behaviour is stated by `HexFold.DigitHead`, `HexFold.LetterHead` and `HexFold.OtherHead`, and its inverse by `HexFold.FoldRoundTrip` |
| `HexFold.DigitHead` | canonical_re.py:15-18 | a leading digit is kept in place |
| `HexFold.LetterHead` | canonical_re.py:15-18 | a leading letter run becomes `[` + run lower-cased + run upper-cased + `]` |
| `HexFold.OtherHead` | canonical_re.py:18 | a character that is neither digit nor letter is copied |
| `HexFold.FoldNoLetters` | canonical_re.py:15-18 | text without letters is returned unchanged |
| `HexFold.FoldConcat` | canonical_re.py:18 | folding distributes over concatenation when no letter run spans the seam |
| `HexFold.UnfoldBracket` | canonical_re.py:16 | the bracket class of a letter run reads back as the run lower-cased |
| `HexFold.FoldRoundTrip` | canonical_re.py:15-18 | reading the fold back gives the input lower-cased: digits and other characters stay in place and in order. `Unfold` reads only the lower-case half of each bracket, so the upper-case half is stated by `HexFold.LetterHead` |
| `HexFold.FoldChars` | canonical_re.py:15-18 | the fold adds no character other than letters and brackets |
| `HexFold.FoldOneLetter` | canonical_re.py:16 | one letter folds to `[` lower upper `]` |
| `HexFold.FoldDigitLetter` | canonical_re.py:15-18 | a digit then a letter folds to the digit and the letter's class |
| `HexFold.FoldDigitsExample` | canonical_re.py:15-18 | `41` and `100` come back unchanged |
| `HexFold.FoldLetterExample` | canonical_re.py:15-18 | `7a` folds to `7[aA]` and `5c` folds to `5[cC]` |
| `HexFold.FoldTwoBytes` | canonical_re.py:15-18 | two digit-letter bytes fold byte by byte |
| `HexFold.FoldTwoBytesExample` | canonical_re.py:15-18 | `5c2e` folds to `5[cC]2[eE]` |
| `Escaping.Escape` | canonical_re.py:31 | `re.escape` keeps the character last and puts a backslash before it exactly when it is special |
| `Escaping.EscapeUnquote` | canonical_re.py:31 | the escaped text reads back as the character itself |
| `Escaping.EscapeInjective` | canonical_re.py:34 | different characters escape differently |
| `Escaping.EscapeAlnum` | canonical_re.py:28 | letters and digits are not quoted |
| `Escaping.SpecialAscii` | canonical_re.py:31 | every quoted character is ASCII and not alphanumeric |
| `Escaping.EscapeFacts` | canonical_re.py:31 | escaping a non-letter brings in no letter; a letter is unchanged |
| `CaseBuilders.FoldedHex` | canonical_re.py:22-25 | `sub_char_class(to_hex(c))` is at least two characters per character of `c`; `CaseBuilders.FoldedHexDecodes` reads it back as the hex of `c` and so as `c` |
| `CaseBuilders.SingleCase` | canonical_re.py:25 | `get_single_case` is a group that opens with `(?:`, closes with `)` and is at least five characters longer than its argument; `CaseBuilders.SingleCaseUniform` and `CaseBuilders.FoldedHexDecodes` state its percent form |
| `CaseBuilders.SplitCase` | canonical_re.py:20-23 | `get_split_case` is a group that opens with `(?:`, closes with `)` and is at least five characters longer than its argument; `Canonicalizer.FragmentForms` and `CaseBuilders.SplitLetterShape` place its percent forms in the pattern, `CaseBuilders.SplitCaseLetterForms` decodes a letter's two forms, and `CaseBuilders.SplitCaseWithoutLetters` covers text without letters |
| `CaseBuilders.FoldedHexDecodes` | canonical_re.py:22-25 | the folded percent form reads back as the hex of the string and so as the string |
| `CaseBuilders.FoldedHexInjective` | canonical_re.py:22-25 | different strings get different folded percent forms |
| `CaseBuilders.SingleCaseUniform` | canonical_re.py:25 | the raw-hex shortcut for digits gives the same pattern as folding the hex |
| `CaseBuilders.SplitCaseWithoutLetters` | canonical_re.py:20-25 | on text without letters the split builder equals the single builder |
| `CaseBuilders.SplitCaseCaseBlind` | canonical_re.py:20-22 | the two cases of a letter give split patterns that differ only in the literal |
| `CaseBuilders.SplitCaseLetterForms` | canonical_re.py:22 | a letter's two percent forms are distinct and read back as its lower and its upper case |
| `CaseBuilders.SingleCaseExample` | canonical_re.py:11 | `z` gives `(?:z\|%7[aA])` |
| `CaseBuilders.SplitCaseExample` | canonical_re.py:10 | `z` gives `(?:z\|%7[aA]\|%5[aA])` |
| `CaseBuilders.EscapedHexPrefix` | canonical_re.py:25 | the folded hex of an escaped special character starts with the backslash's `5[cC]` |
| `CaseBuilders.SingleCaseEscaped` | canonical_re.py:34 | a special character is quoted in the literal, and its percent form encodes the backslash followed by the character |
| `CaseBuilders.SingleCaseDotExample` | canonical_re.py:25 | `.` gives `(?:\.\|%5[cC]2[eE])` |
| `Canonicalizer.Fragment` | canonical_re.py:28-34 | an excluded letter or digit is emitted as it is; any other character becomes a group `(?:`...`)`; `Canonicalizer.FragmentForms` states the group's forms |
| `Canonicalizer.Expansion` | canonical_re.py:29-35 | the joined fragments are at least as long as the text and empty only for empty text; `Canonicalizer.ExpansionConcat` states the in-order concatenation |
| `Canonicalizer.CanonicalPattern` | canonical_re.py:30-35 | the result starts with `(?i)` in case-insensitive mode and is at least as long as the text; `Canonicalizer.FlagOnce` states that the flag occurs only there |
| `Canonicalizer.Canonicalize` | canonical_re.py:27-35 | the loop's joined list equals `CanonicalPattern`: the flag in case-insensitive mode, then the fragments |
| `Canonicalizer.AppendStep` | canonical_re.py:31-35 | appending the next fragment to the list extends the joined text by that character's expansion |
| `Canonicalizer.ExpansionSnoc` | canonical_re.py:31-35 | expanding one more character appends exactly its fragment |
| `Canonicalizer.ExpansionConcat` | canonical_re.py:29-35 | the output is the in-order concatenation of one fragment per character |
| `Canonicalizer.ExpansionAlnum` | canonical_re.py:28 | letters and digits pass through when `full_ascii` is off |
| `Canonicalizer.CanonicalAlnum` | canonical_re.py:28-35 | an alphanumeric text is returned unchanged, or behind `(?i)` in case-insensitive mode |
| `Canonicalizer.FragmentForms` | canonical_re.py:31-34 | an expanded character is an alternation of its escaped literal and percent forms that read back as the hex of the escaped text, one per case for a letter in case-insensitive mode |
| `Canonicalizer.FragmentNoFlag` | canonical_re.py:31-34 | a fragment is non-empty, holds no `(?i` and ends in `)` or an alphanumeric character |
| `Canonicalizer.ExpansionNoFlag` | canonical_re.py:31-35 | no expansion holds `(?i` |
| `Canonicalizer.FlagOnce` | canonical_re.py:30-35 | `(?i` occurs exactly once, at index 0, in case-insensitive mode, and never otherwise |
| `Canonicalizer.CanonicalizeZExample` | canonical_re.py:10-11 | with every character expanded, `z` gives `(?:z\|%7[aA])`, and `(?i)(?:z\|%7[aA]\|%5[aA])` in case-insensitive mode |
| `Canonicalizer.CanonicalizeBangExample` | canonical_re.py:34-35 | `!` gives `(?:!\|%21)` |
| `Canonicalizer.CanonicalizeDotExample` | canonical_re.py:28-35 | `a.b` gives `a(?:\.\|%5[cC]2[eE])b` |
| `Composition.FindAll` | canonical_re.py:37 | `find_all` opens with `(?:`, closes with `)` and holds the first pattern right after the opening; `Composition.FindAllLayout` places every pattern |
| `Composition.ScanInline` | canonical_re.py:39 | `scan_inline` starts with its first pattern and is empty without patterns; `Composition.ScanInlineLayout` places every pattern |
| `Composition.FindAllLayout` | canonical_re.py:37 | `find_all` holds each pattern in order inside `(?:`...`)`, separated by `\|` |
| `Composition.FindAllLength` | canonical_re.py:37 | the group is as long as the patterns plus separators and brackets; with no pattern it is `(?:)` |
| `Composition.ScanInlineLayout` | canonical_re.py:39 | `scan_inline` holds each pattern in order with the joiner between neighbours |
| `Composition.ScanInlineLength` | canonical_re.py:39 | the chain is as long as its patterns plus one joiner per neighbouring pair; with no pattern it is empty |
| `Composition.SinglePattern` | canonical_re.py:37-39 | one pattern is wrapped by `find_all` and returned as it is by `scan_inline` |
| `Composition.CompositionExamples` | canonical_re.py:37-39 | `find_all("a","b")` is `(?:a\|b)`, `scan_inline("a","b")` is `a.+b`, and with no patterns they give `(?:)` and the empty string |

## Left out

- The command-line interface (`get_params` and the `__main__` block, canonical_re.py:41-74): argument parsing and printing only.
- Non-ASCII text. `to_hex` encodes UTF-8, so a non-ASCII character has several bytes, and Python's `isalpha`, `isdigit`, `lower` and `upper` follow Unicode tables. Every operation that encodes or classifies characters therefore requires ASCII input (code points below 128); `find_all`, `scan_inline` and `join` accept any strings.
- `re.escape` of Python versions before 3.7, which quoted every character except ASCII letters, digits and `_`. The model fixes the 3.7+ special set.
- The internals of `re.sub`. `sub_char_class` is modelled by the runs it matches. An empty match is replaced by nothing, so a character that is neither a digit nor a letter is copied.
- Regex semantics: the model proves facts about the pattern text, not about what a regex engine would match with it.
- The two branches of `canonicalize`: the source has two branches, each with its own loop. The model has one loop that picks the builder by mode, and the prefix is added after the loop. The exclusion list `ascii_letters + digits` becomes the predicate `IsAlnum`.
- `find_all` and `scan_inline` take variadic arguments; the model takes a sequence. `scan_inline`'s keyword argument `join` is an explicit parameter, and its default is the constant `DefaultJoiner`. `canonicalize`'s keyword arguments `full_ascii` and `case_insensitive` (both `False` by default, canonical_re.py:27) are explicit parameters with no default.
