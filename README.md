# minigrep in Dafny

A model of the library of `minigrep`, a small command-line search tool.
It is given a query and a file name. It prints every line of the file that
contains the query. If the `CASE_INSENSITIVE` environment variable is set,
it compares after lower-casing. The model covers every function of `src/lib.rs`, with `run` reduced to its dispatch:

- `Config::new` (module `Configuration`, file `config.dfy`). It resolves the
  query, the file name and the case mode from the argument tokens and the
  environment lookup. The argument iterator becomes a cursor into a
  `seq<string>`, and each `args.next()` is a call of `NextArg`.
- `case_sensitive_search` and `case_insensitive_search` (module `Search`,
  file `search.dfy`). The first is an iterator chain, so it is a function.
  The second pushes into a vector in a `for` loop, so it is a method with a
  loop invariant. Both are proved equal to one specification,
  `MatchingLines(query, contents, caseSensitive)`. Lemmas pin that
  specification down: membership, order, multiplicities, the empty query,
  and the crate's own test cases.
- The branch in `run` that picks one of the two searches (`Search.Run`).
- The three `str` operations the searches use: `lines`, `contains` and
  `to_lowercase` (module `RustStr`, file `rust_str.dfy`). `Filter` and its
  lemmas (module `Filtering`, file `filtering.dfy`) model `filter` plus
  `collect`.

Line splitting follows the current documentation of Rust's `str::lines`. A
line ends at `"\n"` or `"\r\n"`. The last line needs no terminator. A
terminator at the very end of the text does not start an empty line. The
empty text has no lines. A lone `'\r'` at the end of an unterminated last
line is kept. Older Rust releases removed that `'\r'` as well.

The case mode comes from `env::var("CASE_INSENSITIVE").is_err()`
(src/lib.rs:23). `env::var` fails both when the variable is unset and when
its value is not valid Unicode. The model therefore takes the lookup's
`Result<string, VarError>`, and the search is case-sensitive exactly when
that lookup failed. Every Unicode value, the empty string included, gives
case-insensitive mode.

`Config::new` returns the source's own error strings,
`"Didn't get a query string!"` and `"Didn't get a input filename!"`.

## Model

| member | source | states |
|---|---|---|
| `Configuration.DrainYields` | src/lib.rs:11-18 | the argument iterator is fused: call `j` of successive `args.next()` calls yields token `j` while tokens remain and `None` ever after, so call `j` from the start yields `Some(args[j])` for every `j < |args|` |
| `Configuration.NewConfig` | src/lib.rs:10-26 | succeeds iff at least three tokens are given; at most one token gives the missing-query error, exactly two the missing-filename error; on success the query is token 1, the file name token 2, and `caseSensitive` holds iff the `CASE_INSENSITIVE` lookup failed |
| `Configuration.ErrorMessagesDiffer` | src/lib.rs:13-21 | the two failures carry different messages |
| `Configuration.ExtraArgsIgnored` | src/lib.rs:18-25 | tokens after the file name never change the outcome |
| `Configuration.CaseModeIgnoresValue` | src/lib.rs:23 | the value of `CASE_INSENSITIVE`, the empty string included, does not affect the configuration |
| `Configuration.ConfigExamples` | src/lib.rs:72-89 | the crate's two configuration tests: `["filepath", "e1"]` fails with the missing-filename error; `["filepath", "e1", "e2"]` succeeds with query `e1` and file name `e2` |
| `RustStr.Contains` | src/lib.rs:50 | `line.contains(query)`; `ContainsIffOccurs` proves it equal to "the query occurs at some position" in both directions |
| `RustStr.ContainsIffOccurs` | src/lib.rs:50 | `contains` holds exactly when the query occurs at some position of the line |
| `RustStr.EmptyContainedEverywhere` | src/lib.rs:50 | the empty query is contained in every line |
| `RustStr.ContainsNeedsChars` | src/lib.rs:50 | every character of a contained query is a character of the line |
| `RustStr.ContainsAfter` | src/lib.rs:50 | a leading part that lacks the query's first character holds no occurrence, so the line contains the query iff the part after it does |
| `RustStr.ToLowercase` | src/lib.rs:58 | lower-casing keeps the length, maps each ASCII capital to its small letter (code point plus 32), leaves no ASCII capital, and keeps every other character |
| `RustStr.ToLowercaseIdempotent` | src/lib.rs:58 | lower-casing twice equals lower-casing once |
| `RustStr.ContainsLowercased` | src/lib.rs:58 | an exact-case occurrence survives lower-casing both sides |
| `RustStr.LineEnd` | src/lib.rs:49 | gives the first line feed of the text, or the text's length when there is none |
| `RustStr.Lines` | src/lib.rs:49 | `contents.lines()`; `LinesCons`, `LinesConsCrLf`, `LinesOfUnlines`, `UnlinesOfLines`, `LinesOfJoinLines` and `FinalTerminatorOptional` pin down how it splits at `"\n"` and `"\r\n"` |
| `RustStr.LinesHaveNoLineFeed` | src/lib.rs:49 | no line produced by `lines()` contains a line feed |
| `RustStr.LinesCons` | src/lib.rs:57 | a line ended by a line feed is split off unchanged, ahead of the lines of the rest |
| `RustStr.LinesConsCrLf` | src/lib.rs:49 | a line ended by `"\r\n"` is split off without its carriage return, ahead of the lines of the rest |
| `RustStr.LinesOfSingleLine` | src/lib.rs:57 | a non-empty text without line feeds is a single line |
| `RustStr.LinesOfUnlines` | src/lib.rs:49 | splitting lines that were each written with a terminator gives them back |
| `RustStr.UnlinesOfLines` | src/lib.rs:49 | a text without carriage returns that is empty or ends with a line feed is rebuilt from its lines |
| `RustStr.LinesOfJoinLines` | src/lib.rs:49 | splitting lines joined by line feeds gives them back when the last line is non-empty; only the lines followed by a line feed must not end with a carriage return |
| `RustStr.LastLineKeepsCr` | src/lib.rs:49 | an unterminated last line keeps its trailing carriage return: `"b\na\r"` splits into `"b"` and `"a\r"` |
| `RustStr.FinalTerminatorOptional` | src/lib.rs:49 | adding `"\r\n"` (or `"\n"` when no `'\r'` precedes it) after the last line adds no empty line |
| `Filtering.Filter` | src/lib.rs:49-51 | `filter(...).collect()`; `FilterCharacterized` proves it is the one subsequence of its input holding each passing element as often as the input does and nothing else |
| `Filtering.FilterCons` | src/lib.rs:49-51 | one step of the filter: the first element, when it passes, comes ahead of the filtered rest |
| `Filtering.FilterMembers` | src/lib.rs:49-51 | the filter is no longer than its input and holds exactly the input's elements that pass the test |
| `Filtering.SubsequenceMultiset` | src/lib.rs:49-51 | deleting elements never adds occurrences |
| `Filtering.FilterIsSubsequence` | src/lib.rs:49-51 | the filter keeps the input's order (it is a subsequence) |
| `Filtering.FilterCounts` | src/lib.rs:49-51 | the filter holds each passing element as often as the input does, and no failing one |
| `Filtering.FilterAppend` | src/lib.rs:57-61 | filtering a concatenation filters each part, which makes the loop's one-line step valid |
| `Filtering.FilterKeepsAll` | src/lib.rs:49-51 | when every element passes, the filter returns its input |
| `Filtering.FilterSameTest` | src/lib.rs:49-51 | filters by two tests that agree on the input are equal |
| `Filtering.FilterUnique` | src/lib.rs:49-51 | any order-preserving selection with the filter's multiplicities is the filter |
| `Filtering.FilterCharacterized` | src/lib.rs:49-51 | both directions: a sequence is the filter iff it is a subsequence of the input with the filter's multiplicities |
| `Search.MatchingLines` | src/lib.rs:48-64 | the result both searches must return; `MatchingLinesCharacterized` proves it is the one subsequence of the text's lines holding each matching line as often as the text does and nothing else |
| `Search.MatchingLinesSpec` | src/lib.rs:48-64 | the search result holds a line iff it is a line of the text that matches under the mode; it keeps the text's order, and it is no longer than the text's line list |
| `Search.CaseSensitiveSearch` | src/lib.rs:48-52 | the iterator chain equals the case-sensitive specification |
| `Search.CaseInsensitiveSearch` | src/lib.rs:55-64 | the loop returns the case-insensitive specification: the original, un-lowered lines whose lower-cased form contains the lower-cased query, in order |
| `Search.Run` | src/lib.rs:30-45 | a read failure is returned as an error; otherwise the lines are those of the case-sensitive search exactly when `config.caseSensitive` holds, and those of the case-insensitive one otherwise |
| `Search.MatchingLinesCharacterized` | src/lib.rs:48-64 | both directions: a sequence is the search result iff it is a subsequence of the lines that holds each matching line as often as the text does and nothing else |
| `Search.EmptyQueryMatchesEveryLine` | src/lib.rs:48-64 | with the empty query, either mode returns every line unchanged and in order |
| `Search.NoMatchGivesEmpty` | src/lib.rs:48-64 | when no line matches, the result is empty |
| `Search.SensitiveWithinInsensitive` | src/lib.rs:48-64 | every line found case-sensitively is also found case-insensitively |
| `Search.ModesAgreeWithoutCapitals` | src/lib.rs:48-64 | when neither the query nor the text has an ASCII capital, the two modes give the same result |
| `Search.LinesFromText` | src/lib.rs:49 | every character of a line of the text is a character of the text, so a text without ASCII capitals has no line with one |
| `Search.CaseSensitiveExample` | src/lib.rs:91-103 | `"duct"` over the four-line sample gives only `"safe, fast, productive."`, not `"Duct tape."` |
| `Search.CaseInsensitiveExample` | src/lib.rs:105-116 | `"rUst"` over the three-line sample gives `["Rust:", "Trust me."]` |

## Left out

- `RustStr.ToLowercase`: folds only the ASCII letters `A`-`Z`. Rust's `to_lowercase` applies the full Unicode lowercase mapping, which includes multi-character expansions and the context-dependent final sigma. The search lemmas hold for this fold; `ModesAgreeWithoutCapitals` speaks only of ASCII capitals.
- `RustStr.ContainsLowercased` holds only for the ASCII fold. Under Rust's full `to_lowercase`, `"ΑΣ".contains("Σ")` holds, but `"ΑΣ".to_lowercase()` is `"ας"` (final sigma), which does not contain `"σ"`, the lower case of `"Σ"`.
- `Search.SensitiveWithinInsensitive` holds only for the ASCII fold. By the same example, the line `"ΑΣ"` with the query `"Σ"` is found by the crate's case-sensitive search and missed by its case-insensitive one.
- `Search.ModesAgreeWithoutCapitals` holds only for the ASCII fold. Under Rust's full `to_lowercase`, the query `"é"` and the line `"É"` hold no ASCII capital, yet the case-sensitive search returns `[]` and the case-insensitive one returns `["É"]`.
- `Configuration.NewConfig` takes the argument tokens as strings, so tokens that are not valid Unicode are not modelled. `std::env::Args::next` panics on such a token. The real `Config::new` can therefore panic at src/lib.rs:11 (the skipped program name), :13 or :18 instead of returning `Ok` or `Err`. Tokens after the file name are never decoded and cannot cause this.
- `RustStr.Contains` is defined by its meaning. The library's substring-search algorithm is not part of this model.
- `Search.Run`: leaves out the I/O. `fs::read_to_string` becomes the parameter `fileContents`, and its error is a string standing for the `io::Error`. Printing with `println!` is left out; `Run` returns the lines it would print, in order.
- The mechanics of `env::var` are left out. Its outcome (`Ok(value)`, `NotPresent` or `NotUnicode`) is a parameter of `NewConfig`.
- Borrowed `&str` results and their lifetimes are left out. The searches return owned `seq<string>` values equal to the borrowed lines.
- The tests at src/lib.rs:76 and src/lib.rs:85 pass `&Vec<String>` to `Config::new`, which takes `std::env::Args`. `ConfigExamples` models the arguments those tests intend as a `seq<string>`.
- `CaseSensitiveExample` and `CaseInsensitiveExample` take the query and the sample text as parameters fixed by their preconditions. The sample texts are written as their lines joined by `"\n"`, which is the same string value as the multi-line literals in the tests.
