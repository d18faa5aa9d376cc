# TimestampFinder, modelled in Dafny

This project models `TimestampFinder` from `src/timestamp_finder.rs`. The finder finds timestamps in log lines. It is built from a strftime-style format such as `%d/%b/%Y:%H:%M:%S%.f`:

- It derives the text of a regular expression from the format (`strftime_to_regex`).
- For each line, it takes the leftmost match of that regex and parses it against the format, giving seconds since the Unix epoch (`find_timestamp`).
- Over a whole input, it collects those values line by line until the first read error (`scan`).

The project has three modules:

- `Text` (`text.dfy`): `Replace`, the literal, left-to-right, non-overlapping replacement of Rust's `str::replace`, with the lemmas about it the rest of the model uses.
- `StrftimeRegex` (`strftime.dfy`): `StrftimeToRegex`, the thirteen `replace` calls in the source's order, with the program's fragments character for character.
  - It also holds a reference definition, `Translate`: one left-to-right pass that looks up the token starting at each position in a table and emits its fragment, or copies the character.
  - The main theorem, `StrftimeIsOnePass`, says that the chain and the one-pass translation agree on every format.
  - The guarantees of the conversion follow from it: no specifier token survives, and every specifier becomes its own fragment whatever surrounds it. So `%y`/`%Y`, `%b`/`%B` and `%s`/`%S` never interfere, and the default template gives exactly the expected regex.
- `Finder` (`finder.dfy`): the finder record, its two constructors, `FindTimestamp` and `Scan`. `Scan` is split into its two pipeline stages: `LinesUntilError` (`map_while(Result::ok)`) and `FilterTimestamps` (`filter_map(find_timestamp)`).

The regex engine and the date parser are library code. They are parameters of the model, gathered in `Finder.Collaborators`:

- whether a regex text compiles;
- the leftmost match of a regex in a text;
- the parse of a text against a format to an epoch value.

The input of `scan` is a sequence of `LineRead` values, each a line of text or a read error.

The model follows the code as written:

- The code converts the format with a chain of whole-string replacements, not with a longest-token-first lexer.
  - A chain of whole-string replacements could in general let one replacement clobber another token. For these thirteen tokens it does not: the chain is proved equal to the one-pass translation (`StrftimeIsOnePass`), and each token becomes its own fragment (`TwoSpecifiers`, `CaseSensitivity`).
  - The reasons are that every fragment is free of `%`, every token is `%` followed by characters that are not `%`, and no two tokens share their second character.
- Literal text of the format is not escaped; it reaches the regex unchanged (`PiecesCompile`).
- `%.f` becomes `\d{1,}`. The dot is consumed with the token and is not matched by the fragment.
- The fragments are the program's, character for character. `%y` gives `\d{1,2`, with no closing brace, and `%B` gives `[A-Za-z]{3,4,5,6,7,8,9}`.

## Model

| member | source | states |
|---|---|---|
| Text.Replace | src/timestamp_finder.rs:75-87 | `str::replace` with a literal pattern: a text that lacks the pattern's first character is returned unchanged |
| Text.ReplacePassThrough | src/timestamp_finder.rs:75-87 | text without the pattern's first character is copied, and replacement goes on after it |
| Text.ReplaceAtStart | src/timestamp_finder.rs:75-87 | an occurrence at the start is swapped for the replacement, and replacement goes on after it |
| Text.ReplaceAbsent | src/timestamp_finder.rs:75-87 | replacing a pattern that does not occur leaves the text unchanged |
| StrftimeRegex.StrftimeToRegex | src/timestamp_finder.rs:73-89 | a format without `%` is returned unchanged, because every replaced token begins with `%` |
| StrftimeRegex.SpecifiersShape | src/timestamp_finder.rs:75-87 | the thirteen (token, fragment) pairs are well formed: tokens are `%` and then non-`%` characters; fragments have no `%` and start with `\` or `[`; no two tokens share their second character |
| StrftimeRegex.FirstMatchMinimal | src/timestamp_finder.rs:75-87 | the table lookup picks the first entry whose token starts the text |
| StrftimeRegex.TranslateToken | src/timestamp_finder.rs:75-87 | in the one-pass translation, a token at the head of the text becomes its own fragment, whatever follows it |
| StrftimeRegex.TranslatePassThrough | src/timestamp_finder.rs:75-87 | in the one-pass translation, text without `%` is copied unchanged |
| StrftimeRegex.ReplaceTranslate | src/timestamp_finder.rs:75-87 | one more `replace` on a partial translation gives the translation by the table extended with that token |
| StrftimeRegex.StrftimeIsOnePass | src/timestamp_finder.rs:73-89 | the chain of thirteen replacements equals the one-pass, table-driven translation of the format |
| StrftimeRegex.TranslateHasNoToken | src/timestamp_finder.rs:75-87 | the one-pass translation never leaves a token of the table in its output |
| StrftimeRegex.NoTokenSurvives | src/timestamp_finder.rs:73-89 | none of the thirteen specifier tokens occurs in a converted format |
| StrftimeRegex.TranslatePieces | src/timestamp_finder.rs:75-87 | a format made of specifiers and `%`-free text translates piece by piece |
| StrftimeRegex.PiecesCompile | src/timestamp_finder.rs:73-89 | converting a format made of specifiers and `%`-free text turns each specifier into its own fragment and keeps the text verbatim, unescaped |
| StrftimeRegex.TwoSpecifiers | src/timestamp_finder.rs:75-87 | any two adjacent specifiers each become their own fragment, so no replacement clobbers another |
| StrftimeRegex.CaseSensitivity | src/timestamp_finder.rs:75-87 | `%y`/`%Y`, `%b`/`%B` and `%S`/`%s`, in either order, each become their own distinct fragment |
| StrftimeRegex.DefaultTemplateRegex | src/timestamp_finder.rs:73-89 | the default template `%d/%b/%Y:%H:%M:%S%.f` converts to exactly `\d{1,2}/[A-Za-z]{3}/\d{1,4}:\d{1,2}:\d{1,2}:\d{1,2}\d{1,}`, consuming the dot of `%.f` |
| Finder.NewWithFormat | src/timestamp_finder.rs:42-50 | succeeds exactly when the derived regex compiles; the finder then keeps the format unchanged, and its regex is the conversion of that format; otherwise the error carries the regex that failed |
| Finder.New | src/timestamp_finder.rs:16-18 | the finder for `%d/%b/%Y:%H:%M:%S%.f`, whose regex is exactly the expected Common Log Format pattern; it exists exactly when that pattern compiles |
| Finder.FinderRegexHasNoToken | src/timestamp_finder.rs:42-50 | a built finder's regex holds no specifier token |
| Finder.FindTimestamp | src/timestamp_finder.rs:53-58 | None when the regex has no match; otherwise the parse of the leftmost match against the finder's format, which is None when the parse fails |
| Finder.FoundTimestampComesFromLine | src/timestamp_finder.rs:53-58 | a remark on the library assumption: if the matcher reports only text of the searched line, every value found is the parse of some text of that line |
| Finder.LinesUntilError | src/timestamp_finder.rs:65-67 | `map_while(Result::ok)`: the longest run of lines read before the first error, in order |
| Finder.LinesUntilErrorStops | src/timestamp_finder.rs:65-67 | nothing after a read error is passed on |
| Finder.LinesUntilErrorAppend | src/timestamp_finder.rs:65-67 | lines read without error, followed by more input, are all passed on, followed by what the rest yields |
| Finder.LinesUntilErrorPrefix | src/timestamp_finder.rs:65-67 | the lines passed on from a prefix of the input are a prefix of those passed on from the whole input |
| Finder.FilterTimestamps | src/timestamp_finder.rs:68-68 | `filter_map(find_timestamp)`: at most one value per line |
| Finder.FilterTimestampsAppend | src/timestamp_finder.rs:68-68 | filtering distributes over concatenation, so values come out in line order |
| Finder.FilterTimestampsPrefix | src/timestamp_finder.rs:68-68 | filtering a prefix of the lines gives a prefix of the values |
| Finder.FilterTimestampsMembers | src/timestamp_finder.rs:68-68 | a value is kept exactly when it is the timestamp found in one of the lines |
| Finder.Scan | src/timestamp_finder.rs:61-71 | always succeeds, with at most one value per line read before the first read error |
| Finder.ScanStopsAtError | src/timestamp_finder.rs:61-71 | a read error ends the scan: the result is that of the lines before it |
| Finder.ScanAppend | src/timestamp_finder.rs:61-71 | scanning input whose first part reads without error gives that part's values, then the rest's |
| Finder.ScanPrefix | src/timestamp_finder.rs:61-71 | scanning more of the input only adds values at the end |
| Finder.ScanMembers | src/timestamp_finder.rs:61-71 | a value is in the scan exactly when it is the timestamp of a line read before any read error |

## Left out

- Regex compilation and matching (`Regex::new`, `captures`) are library code. They are the `compiles` and `leftmostMatch` parameters. Whether `\d{1,2` or `{3,4,5,6,7,8,9}` compiles is therefore not modelled, and neither is what the regex matches.
- Date parsing and epoch conversion (`NaiveDateTime::parse_from_str`, `timestamp`) are library code. They are the `parseTimestamp` parameter, so the concrete epoch values in the tests are outside the model.
- Finder.FindTimestamp: the epoch value is an unbounded integer; the 64-bit range of the result is not modelled.
- `BufReader::lines`, byte-to-UTF-8 decoding and I/O are represented by the given sequence of `LineRead` values.
- `src/lib.rs` is not part of this model. It only re-exports the module and holds examples and tests.
- Text.Replace: the empty pattern, which Rust treats by inserting the replacement between characters, is excluded by a precondition. Every call in the source uses a non-empty literal pattern.
- That `find_timestamp` and `scan` leave the finder unchanged is built into the model: the finder is a value and nothing updates it, so no separate statement is made.
- The compiled `Regex` object is represented by its source text. Building it is the `compiles` test.
- The content of a construction error is abstracted. The program returns an `anyhow::Error` wrapping the regex library's error, some kinds of which do not carry the pattern. The model's `InvalidRegex` records the regex text that failed to compile.
