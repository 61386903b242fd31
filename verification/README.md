# StringUtils in Dafny

This project models the string algorithms of `src/StringUtils.cpp` and proves properties about them. Each is a loop over its input. Most read the input once from left to right. `Trim` has a second loop that comes back from the right end. `Split` and `Indent` search afresh, on each turn, the remainder left by the previous turn.

| Algorithm | What it does |
|---|---|
| `Trim` | Strips characters with code at most 32 from both ends. |
| `Indent` | Inserts spaces after each CRLF that more text follows. |
| `ParseComponent` | Cuts one component out of a comma-separated, bracket-nested value with quoted strings. |
| `Escape` / `Unescape` | Prefix-escaping with one escape character. |
| `Split` / `Join` | Each comes in a character overload and a string overload. |
| `Tolower` / `NormalizeCaseInsensitiveString` | ASCII lower-casing. |
| `ToInteger` | A four-state parser of 64-bit decimal integers. |
| `InstantiateTemplate` | A four-state machine that replaces `${name}` by a map lookup. |
| `StripMarginWhitespace` | Removes every white-space character. |

Each source function is a Dafny `method` with the source's own loop and variables, proved equal to a pure specification function. The properties the code promises are lemmas about those specification functions. Each specification function has a partner:
- an inverse (`Unescaped` of `Escaped`, `Splitted` of `Joined`, `Interpret` of the decimal text of an integer);
- a characterisation (`IsTrimOf` for `Trimmed`; the decimal grammar `IsDecimal` for `Interpret`; for the component scan, where it stops (`ComponentStop`), the level it keeps until then (`LevelsBeforeStop`) and how it passes over quoted strings (`QuotedStringIgnored`, `EscapedQuoteStaysInString`));
- or an independent reference (`Render` for the template scanner, `IndentedLines` for `Indented`).

The unit tests of `test/src/StringUtilsTests.cpp` are stated as example lemmas.

## Modules

| File | Module | Covers |
|---|---|---|
| `trim.dfy` | `Trimming` | `Trim` |
| `split.dfy` | `Splitting` | `Split` and `Join`, and `std::string::find` as `Find` |
| `indent.dfy` | `Indentation` | `Indent` |
| `component.dfy` | `Components` | `ParseComponent` |
| `escape.dfy` | `Escaping` | `Escape` and `Unescape` |
| `case.dfy` | `CharacterMaps` | `Tolower`, `NormalizeCaseInsensitiveString` and `StripMarginWhitespace` |
| `integer.dfy` | `IntegerParsing` | `ToInteger` |
| `template.dfy` | `Templates` | `InstantiateTemplate` |

## Model

| member | source | states |
|---|---|---|
| Trimming.Trim | src/StringUtils.cpp:43-51 | The two index loops return `Trimmed(s)`: the leading and then the trailing characters of code at most 32 removed. When every character is blank the indices cross, and the result is empty. |
| Trimming.TrimLeftFacts | src/StringUtils.cpp:44-46 | The first loop's stopping point: what remains is a suffix of `s`, everything skipped is blank, and what remains does not start with a blank. |
| Trimming.TrimRightFacts | src/StringUtils.cpp:47-49 | The second loop's stopping point: what remains is a prefix, everything dropped is blank, and what remains does not end with a blank. |
| Trimming.TrimmedIsTrim | src/StringUtils.cpp:43-51 | Trim returns a contiguous window `s[i..j]` with only blanks outside it and no blank at either of its ends. |
| Trimming.TrimIsUnique | src/StringUtils.cpp:43-51 | Conversely, any string with that shape is Trim's result, so the shape characterises Trim. |
| Trimming.TrimIdempotent | src/StringUtils.cpp:43-51 | Trimming twice is trimming once. |
| Trimming.TrimOfTrimmed | src/StringUtils.cpp:43-51 | A string with no blank at either end is returned unchanged. |
| Trimming.TrimEmptyIffAllBlank | src/StringUtils.cpp:43-51 | Trim returns `""` exactly when every character has code at most 32. |
| Trimming.TrimOfPadded | src/StringUtils.cpp:43-51 | Blanks wrapped around a trimmed string are exactly what Trim removes. |
| Trimming.TrimLeftAppend | src/StringUtils.cpp:44-46 | The first loop run over `s + z`: it stops inside `s` unless `s` is all blank, and then it goes on into `z`. |
| Trimming.TrimmedSnoc | src/StringUtils.cpp:43-51 | A blank appended to `s` leaves Trim's result unchanged. A non-blank appended is kept, with every blank between it and the trimmed text. |
| Trimming.TrimExample | test/src/StringUtilsTests.cpp:37-40 | Trim of the test's string padded with spaces, tabs, CR and LF is `"Hello, World!"`. |
| Splitting.FindFrom | src/StringUtils.cpp:169 | Models `find`: the first index at or after `i` where `d` occurs, or the length (for `npos`) when it occurs nowhere after `i`. |
| Splitting.Split | src/StringUtils.cpp:162-181 | The loop that trims, cuts at the first delimiter and re-trims the rest returns `Splitted(s, d)`. The delimiter must be non-empty unless the input is all blank. |
| Splitting.SplitOfBlank | src/StringUtils.cpp:164-166 | Text made only of blanks trims to `""`, so the loop never runs and Split returns no pieces, whatever the delimiter, the empty one included. |
| Splitting.SplitAt | src/StringUtils.cpp:143-160 | The character overload gives the string overload's result for the one-character delimiter. |
| Splitting.Join | src/StringUtils.cpp:198-211 | The `first`-flag loop returns `Joined(v, d)`: the pieces in order, with `d` only between neighbours. |
| Splitting.JoinWith | src/StringUtils.cpp:183-196 | The character overload gives the string overload's result for the one-character separator. |
| Splitting.JoinEmpty | src/StringUtils.cpp:198-211 | Join of no pieces is `""`. |
| Splitting.JoinedLength | src/StringUtils.cpp:198-211 | Join of `n >= 1` pieces has the pieces' total length plus `(n - 1)` times the separator's length. |
| Splitting.JoinedCons | src/StringUtils.cpp:198-211 | The separator goes between the first piece and the join of the rest, and nowhere else. |
| Splitting.PiecesFacts | src/StringUtils.cpp:166-179 | From a trimmed remainder every piece is trimmed and free of the delimiter. The loop produces no piece exactly when the remainder is empty. |
| Splitting.SplitFacts | src/StringUtils.cpp:162-181 | Every piece Split returns is trimmed and does not contain the delimiter. The result is empty exactly when the input is all blanks. |
| Splitting.TrimmedKeepsLacks | src/StringUtils.cpp:164 | Trimming a string that lacks the delimiter leaves a string that lacks it. |
| Splitting.SplitJoined | src/StringUtils.cpp:143-211 | Split at `c` undoes Join with `c` when every piece is non-empty, trimmed and free of `c`. |
| Splitting.SplitJoinedTrailing | src/StringUtils.cpp:143-211 | A trailing delimiter after the joined plain pieces adds no piece. Joined nothing followed by a lone delimiter gives the single piece `""`. `SplitTrailingDelimiter` states this for any text. |
| Splitting.SplitTrailingDelimiter | src/StringUtils.cpp:162-181 | For any `s`, Split at `c` of `s + [c]` equals Split of `s`, empty pieces included, when `c` is blank (Trim removes it) or the trimmed `s` is non-empty and does not already end in `c`. |
| Splitting.PiecesSnoc | src/StringUtils.cpp:166-179 | From a non-empty trimmed remainder not ending in `c`, blanks and one more `c` at the end leave the loop's pieces unchanged. |
| Splitting.PiecesJoined | src/StringUtils.cpp:166-179 | The loop cuts a join of plain pieces, optionally followed by one delimiter, back into those pieces. |
| Splitting.PiecesCut | src/StringUtils.cpp:166-179 | One turn of the loop: at the first occurrence of `d`, the trimmed text before it is the next piece, and the loop continues on the trimmed text after it. |
| Splitting.PiecesWhole | src/StringUtils.cpp:170-174 | A remainder with no delimiter is the last piece, as it is. |
| Splitting.PiecesLeadingDelimiter | src/StringUtils.cpp:170-178 | A remainder that starts with the delimiter yields an empty piece first. |
| Splitting.SplitKeepsEmptyPieces | src/StringUtils.cpp:162-181 | `",b"` splits into `["", "b"]` and `"a,,b"` into `["a", "", "b"]`. |
| Splitting.SplittedPair | src/StringUtils.cpp:162-181 | Two trimmed words around one delimiter split into those two words. |
| Splitting.SplittedTriple | src/StringUtils.cpp:162-181 | Three trimmed words with delimiters between them split into those three words. |
| Splitting.SplitJoinedString | src/StringUtils.cpp:162-211 | For a separator of any length, Split undoes Join when every piece is non-empty, trimmed and free of the separator's first character. One more separator after the join adds no piece when it ends in a non-blank. |
| Splitting.PiecesJoinedFor | src/StringUtils.cpp:166-179 | The loop cuts such a join, optionally followed by one separator, back into its pieces. |
| Splitting.SplitTrailingOverlap | src/StringUtils.cpp:162-181 | With the self-overlapping delimiter `"::"`, `"a:"` is the one piece `["a:"]`, but `"a:" + "::"` splits into `["a", ":"]`: the trailing delimiter adds a piece and changes the first. |
| Splitting.SplitJoinedOverlap | src/StringUtils.cpp:162-211 | The pieces `"a:"` and `"b"` are non-empty, trimmed and free of `"::"`, yet their join with `"::"` splits into `["a", ":b"]`. |
| Splitting.SplitAtExample | test/src/StringUtilsTests.cpp:78-81 | `"Hello, World!"` split at `' '` is `["Hello,", "World!"]`. |
| Splitting.SplitExample | test/src/StringUtilsTests.cpp:83-87 | `"Hello::World!::My:Darling"` split at `"::"` is `["Hello", "World!", "My:Darling"]`. |
| Splitting.JoinExamples | test/src/StringUtilsTests.cpp:89-97 | Join of `["Hello", "World!"]` with `'-'` and with `", "`. |
| Indentation.Indent | src/StringUtils.cpp:53-73 | The loop that takes one CRLF-terminated line at a time, and puts the spaces before every line but the first, returns `Indented(linesIn, spaces)`. |
| Indentation.IndentUnbroken | src/StringUtils.cpp:59-63 | Text without a CRLF is copied unchanged. |
| Indentation.IndentFirstLine | src/StringUtils.cpp:58-67 | The first line runs up to and including the first CRLF. It is followed by the spaces only when more text follows. |
| Indentation.IndentCRLF | src/StringUtils.cpp:53-73 | A CRLF is followed by the spaces exactly when more text comes after it. |
| Indentation.IndentLine | src/StringUtils.cpp:53-73 | A line without CRLF followed by CRLF comes out unchanged, followed by the spaces when text remains. |
| Indentation.IndentZero | src/StringUtils.cpp:53-73 | Indenting by zero spaces changes nothing. |
| Indentation.IndentLines | src/StringUtils.cpp:53-73 | For CRLF-free lines joined with CRLF, the result is the same lines each prefixed by the spaces, joined with CRLF. The first line and an empty last line are not prefixed. |
| Indentation.IndentThreeLines | src/StringUtils.cpp:53-73 | Three CRLF-terminated lines: the second and third get the spaces, and no spaces follow the final CRLF. |
| Indentation.IndentLeadingBreak | src/StringUtils.cpp:53-73 | A text that starts with CRLF gets spaces after it, as after every other CRLF. |
| Indentation.IndentExample | test/src/StringUtilsTests.cpp:42-51 | Three lines indented by two spaces, as in the test. |
| Indentation.IndentNestedExample | test/src/StringUtilsTests.cpp:52-61 | The nested `Struct {` block of the test. |
| Components.ParseComponent | src/StringUtils.cpp:75-112 | The result is `s[begin..j]`, where `j` is the first position at which the scan stops. |
| Components.ComponentStop | src/StringUtils.cpp:80-110 | Where the scan stops: `begin <= j <= end`, or `j == begin` when `begin >= end`. Before `end`, it stops either at a top-level comma outside a string, which is excluded, or just after the closer that brings the level from 1 to 0. |
| Components.LevelsBeforeStop | src/StringUtils.cpp:80-110 | Until the scan stops, the nesting level stays at least 1. |
| Components.EscapeOnlyInString | src/StringUtils.cpp:82-94 | The escape flag is only ever set inside a string. |
| Components.QuotedTextIgnored | src/StringUtils.cpp:82-94 | Inside a string, text without quotes or backslashes changes nothing, including commas and brackets. |
| Components.EscapedQuoteStaysInString | src/StringUtils.cpp:84-92 | A backslash-escaped `"` does not close the string. |
| Components.QuotedStringIgnored | src/StringUtils.cpp:82-101 | A whole quoted string read outside a string leaves the scanner as it was. |
| Components.PlainThenBracket | src/StringUtils.cpp:95-108 | Plain text outside a string keeps the state. A bracket after it moves the level by one. |
| Components.NestedGroupComponent | src/StringUtils.cpp:75-112 | A component holding one nested bracket pair runs up to and including the closer of the outer pair. |
| Components.ComponentExample | test/src/StringUtilsTests.cpp:63-66 | From index 9 of the test line, the component is `"abc {c} = def}"`. |
| Escaping.Escape | src/StringUtils.cpp:114-124 | The loop returns `Escaped(s, e, S)`: each character of `S` is preceded by `e`. |
| Escaping.Unescape | src/StringUtils.cpp:126-141 | The one-flag loop returns `Unescaped(s, e)`: an unescaped `e` is dropped and the next character is kept as it is. |
| Escaping.EscapedLength | src/StringUtils.cpp:114-124 | The output is `|s|` plus the number of characters of `s` that are in the set. |
| Escaping.EscapedAppend | src/StringUtils.cpp:114-124 | Escape works character by character, so it distributes over concatenation. |
| Escaping.EscapedNothing | src/StringUtils.cpp:114-124 | Text with no character of the set comes out unchanged. |
| Escaping.UnescapeEscaped | src/StringUtils.cpp:114-141 | When the escape character is in the set, Unescape undoes Escape and ends with no escape pending. |
| Escaping.RoundTripNeedsEscapeCharacter | src/StringUtils.cpp:114-141 | Without the escape character in the set, the round trip fails: a lone `^` is lost. |
| Escaping.UnescapedShorter | src/StringUtils.cpp:126-141 | Unescape never lengthens its input. |
| Escaping.EscapedThreeRuns | src/StringUtils.cpp:114-124 | Three plain runs, each followed by a character of the set, get `e` before each of those characters. |
| Escaping.EscapeExample | test/src/StringUtilsTests.cpp:68-71 | `"Hello, W^orld!"` escaped with `'^'` and `{' ', '!', '^'}` is `"Hello,^ W^^orld^!"`. |
| Escaping.UnescapeExample | test/src/StringUtilsTests.cpp:73-76 | `"Hello,^ W^^orld^!"` unescaped with `'^'` is `"Hello, W^orld!"`. |
| CharacterMaps.LowerChar | src/StringUtils.cpp:216 | The C locale's `tolower`: a capital `A`-`Z` moves up by 32, anything else is unchanged, and no capital is returned. |
| CharacterMaps.Tolower | src/StringUtils.cpp:213-218 | The loop returns `Lowered(s)`. |
| CharacterMaps.NormalizeCaseInsensitiveString | src/StringUtils.cpp:358-363 | The loop returns `Lowered(inputString)`. |
| CharacterMaps.LoweredFacts | src/StringUtils.cpp:213-218 | The length is kept, and position `i` of the result is `tolower` of position `i` of the input. |
| CharacterMaps.NoUpperLeft | src/StringUtils.cpp:213-218 | No capital letter is left. |
| CharacterMaps.LoweredAppend | src/StringUtils.cpp:213-218 | Lower-casing works piece by piece. |
| CharacterMaps.LoweredIdempotent | src/StringUtils.cpp:358-363 | The normal form is its own normal form. |
| CharacterMaps.LoweredUnchanged | src/StringUtils.cpp:213-218 | A string is unchanged exactly when it holds no capital. |
| CharacterMaps.LowerCharIffSameIgnoringCase | src/StringUtils.cpp:361 | Two characters map to the same character exactly when they are equal up to ASCII case. |
| CharacterMaps.NormalFormIffSameIgnoringCase | src/StringUtils.cpp:358-363 | Two strings have the same normal form exactly when they have the same length and agree position by position up to ASCII case. |
| CharacterMaps.TolowerWordExamples | test/src/StringUtilsTests.cpp:99-105 | The test's `hello` and `example` vectors. |
| CharacterMaps.TolowerDigitExamples | test/src/StringUtilsTests.cpp:106-109 | The test's `foo1bar` vectors. |
| CharacterMaps.NormalizeExamples | test/src/StringUtilsTests.cpp:201-205 | The first four vectors of the test. |
| CharacterMaps.NormalizeMoreExamples | test/src/StringUtilsTests.cpp:206-208 | The remaining three vectors of the test. |
| CharacterMaps.StripMarginWhitespace | src/StringUtils.cpp:365-373 | The loop returns `Stripped(inputString)`: the input with every C-locale `isspace` character removed, wherever it stands. |
| CharacterMaps.StrippedFacts | src/StringUtils.cpp:365-373 | The result is no longer than the input and holds no white space. Every other character is kept as often as it occurs. |
| CharacterMaps.StrippedAppend | src/StringUtils.cpp:365-373 | Stripping works piece by piece. |
| CharacterMaps.StrippedUnchanged | src/StringUtils.cpp:365-373 | A string is unchanged exactly when it holds no white space. |
| CharacterMaps.StrippedIdempotent | src/StringUtils.cpp:365-373 | Stripping twice is stripping once. |
| CharacterMaps.StrippedExamples | test/src/StringUtilsTests.cpp:211-216 | The four vectors of the test. |
| IntegerParsing.ToInteger | src/StringUtils.cpp:220-291 | The state machine returns `Interpret(stringNumber).result`. It writes the number only on `Success`, and then writes the parsed value. |
| IntegerParsing.AccumulateStep | src/StringUtils.cpp:259-280 | One digit in state 3: the truncating-division guards report overflow, and otherwise the value grows by one digit and stays in range. A non-digit means not a number. |
| IntegerParsing.NegativeGuard | src/StringUtils.cpp:265 | `(lowest + digit) / 10 > value`, with C++ truncating division, holds exactly when `10 * value - digit < lowest`. |
| IntegerParsing.PositiveGuard | src/StringUtils.cpp:269 | `(max - digit) / 10 < value` holds exactly when `10 * value + digit > max`. |
| IntegerParsing.SuccessIffDecimalInRange | src/StringUtils.cpp:220-291 | `Success` is returned exactly for texts made of an optional `-` and then either a lone `0` or a digit `1`-`9` followed by digits, whose value is in the 64-bit range, and then the number is that value. |
| IntegerParsing.OverflowIffPrefixOutOfRange | src/StringUtils.cpp:259-280 | `Overflow` is returned exactly when the first digit is `1`-`9` and some prefix of the digit run, with its sign, leaves the range, whatever follows it. |
| IntegerParsing.ParseDecimalString | src/StringUtils.cpp:220-291 | The decimal text of any integer parses back to it when it fits in 64 bits, and overflows when it does not. |
| IntegerParsing.SmallExamples | src/StringUtils.cpp:220-291 | `"0"` and `"-0"` give 0, and `"42"` and `"-42"` parse. `""`, `"-"`, `"00"`, `"+5"` and `"12a"` are not numbers. |
| IntegerParsing.BoundaryExamples | test/src/StringUtilsTests.cpp:119-164 | `max` and `lowest` parse back, and `max + 1` and `lowest - 1` overflow. |
| Templates.InstantiateTemplate | src/StringUtils.cpp:293-356 | The four-state loop returns `Render(templateText, variables)`, the structural reading of the template. |
| Templates.RunRender | src/StringUtils.cpp:304-354 | The character-by-character machine from state Normal computes `Render`, whatever was already built. |
| Templates.RunVariable | src/StringUtils.cpp:326-349 | A closed `${key}` at the front: the machine emits `variables[key]` (`""` when the key is absent) and resumes in state Normal after the `}`, and Render reads the same text the same way. |
| Templates.TokenRunClosed | src/StringUtils.cpp:339-349 | In state Token, the characters up to the first `}` are collected, and their value is then emitted. |
| Templates.TokenRunOpen | src/StringUtils.cpp:339-349 | With no `}` ahead, the rest is collected into the token and nothing is emitted. |
| Templates.RenderLiteral | src/StringUtils.cpp:293-356 | A template with no `\` and no `$` is returned unchanged. |
| Templates.RenderVariable | src/StringUtils.cpp:326-349 | `${k}` becomes `variables[k]` when `k` is present, and `""` otherwise. |
| Templates.RenderEscaped | src/StringUtils.cpp:309-324 | `\x` emits `x`, whatever `x` is. |
| Templates.RenderDollar | src/StringUtils.cpp:326-336 | `$x` with `x != '{'` emits `$x`. |
| Templates.RenderUnfinished | src/StringUtils.cpp:293-356 | An unterminated `${...`, a trailing `$` and a trailing `\` emit nothing. |
| Templates.TemplateExample | test/src/StringUtilsTests.cpp:174-198 | The test's template renders to the expected text. |

## Left out

- `sprintf` and `vsprintf` (src/StringUtils.cpp:13-35) are left out. They are `va_list` plumbing around the C library's `vsnprintf`, whose formatting is not part of this model.
- `wcstombs` (src/StringUtils.cpp:37-41) is left out. It is a wrapper around the locale-dependent C conversion of wide strings.
- Trimming.Trim reads characters as unsigned code points, so a character is blank when its code is 0 to 32. The source compares a plain `char`. Where `char` is signed, bytes 0x80-0xFF are negative and would also count as blank; that platform-dependent case is not modelled.
- Strings are sequences of Dafny `char`, which are Unicode scalar values, while `std::string` holds bytes. Inputs are meant to stay in the range 0 to 255; characters above it have no counterpart in the source.
- CharacterMaps.LowerChar and CharacterMaps.IsSpace model the "C" locale only. Other locales, and `tolower`/`isspace` on negative `char` values, are left out.
- IntegerParsing.ToInteger takes `intmax_t` to be 64 bits. The by-reference `number` is an input that comes back as `numberOut`.
- Splitting.Split requires a non-empty delimiter unless the input is all blank; on blank input the source returns no pieces, and so does the model. An empty delimiter with non-blank input is not modelled. The source then finds the delimiter at index 0 on every turn, pushes an empty piece and keeps the remainder, so it never returns.
- Splitting.Split: the trailing-delimiter and round-trip laws are stated for one-character delimiters (`SplitTrailingDelimiter`, `SplitJoined`). For longer delimiters they are stated only for pieces free of the delimiter's first character (`SplitJoinedString`), because they fail for delimiters that overlap themselves, such as `"::"` after a trailing `':'` (`SplitTrailingOverlap`, `SplitJoinedOverlap`).
- Splitting.SplitAt and Splitting.JoinWith call the string overloads with a one-character string. The source repeats the same loop with `find_first_of` and `<< d`, which behave the same for one character.
- Components.ParseComponent requires `begin <= |s|`, because `substr` throws `std::out_of_range` beyond it. It also requires `end <= |s|`. With `end == |s| + 1`, a scan that gets to `|s|` reads the terminating NUL `s[|s|]`, which C++11 defines; it is no special character, so the scan steps past it and `substr` clamps the result to `s[begin..]`. That case is not modelled, and a larger `end` reads past the string.
- The `ostringstream` builders of `Join`, `Tolower` and `InstantiateTemplate` are modelled as strings that the loop appends to.
- The `default:` branch of `InstantiateTemplate`'s switch (src/StringUtils.cpp:351-352) cannot be reached with a four-valued state, so the model's `match` has no such case.
- `Indent` changes its by-value parameter `linesIn`. In the model that is the local `rest`, and `spaces` is a `nat`.
- Interior empty pieces are kept: `"a,,b"` gives `["a", "", "b"]` and `",b"` gives `["", "b"]` (`Splitting.SplitKeepsEmptyPieces`).
