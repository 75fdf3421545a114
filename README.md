# minigrep in Dafny

A model of the library of minigrep, a minimal command-line text search
(`src/lib.rs`). The library has two parts:

- **Config builder** (`Config::build`). It skips the program name. It takes
  the next argument as the query and the one after as the file path, and it
  fails with "Didn't get a query string" or "Didn't get a file path" when one
  is missing. Extra arguments are ignored. `ignore_case` is true exactly
  when `env::var("IGNORE_CASE")` returns `Ok`: the variable is set and its
  value is valid Unicode.
- **Line filter** (`search`, `search_case_insensitive`). It splits the file
  contents into lines the way Rust's `str::lines` does. It keeps, in order,
  the lines that contain the query. The case-insensitive variant compares
  lowercased forms and returns the original lines.

Files:

- `filtering.dfy`, module `Filtering`: order-preserving `Filter`, the
  subsequence relation, and `KeepsExactly`. `KeepsExactly` is an independent
  description of a filter's result. The module proves that `Filter` meets it
  and is the only sequence that does.
- `str_ops.dfy`, module `StrOps`: the standard-library routines the filter
  uses. These are substring containment (`Contains`), line splitting
  (`Lines`) and per-character lowercasing (`Lower`), with their properties.
- `minigrep.dfy`, module `Minigrep`: `Config`, the argument iterator
  `ArgIter`, `Build`, `Search` and `SearchCaseInsensitive`, with their
  properties and the library's unit-test scenarios.

`Build` is a method because the source works step by step. It creates an
`ArgIter` over the arguments and calls `Next` three times, stopping at the
first missing argument, as `args.next()` does. The environment lookup is the
parameter `envHasIgnoreCase`. The filters are pure functions, as the
`lines().filter(..).collect()` pipelines are. They are deterministic by
construction, so calling one twice on the same inputs gives the same result.

`Lines` follows the current `str::lines`: it splits at every '\n', and each
line that a '\n' ends loses one '\r' in front of that '\n'. A final line
break adds no empty line, and `""` has no lines. A last line with no '\n'
after it keeps a trailing '\r'. `SplitForm` and `LinesOfJoined` together
describe `Lines` on every input: any text is lines joined by a mix of "\n"
and "\r\n" breaks, followed by a last piece with no break, and splitting gives
back exactly those lines and that piece.

The code does not check that the query is non-empty, so `Build` accepts an
empty query.

## Model

| member | source | states |
|---|---|---|
| Minigrep.Build | src/lib.rs:12-28 | Fewer than two arguments gives exactly the error "Didn't get a query string". Exactly two gives exactly "Didn't get a file path". Success holds iff there are at least three, and then the config is (args[1], args[2], env flag); later arguments are ignored and `ignore_case` is the env flag whatever the arguments |
| Minigrep.ArgIter.Next | src/lib.rs:13-20 | `args.next()`: yields the next unconsumed argument and advances by one; once exhausted it yields None and stays put |
| Minigrep.Search | src/lib.rs:45-50 | `search` keeps exactly the matching lines (`KeepsExactly`): its result is a subsequence of `Lines(contents)` (order kept, never longer), every returned line contains the query, every line containing the query is returned as often as it occurs, and no other line is returned; `SearchIsTheOnlyExactFilter` shows this determines the result |
| Minigrep.SearchIsTheOnlyExactFilter | src/lib.rs:45-50 | Any sequence that is an in-order subsequence of the lines keeping exactly the matching lines with their multiplicities equals `search`'s result |
| Minigrep.SearchCaseInsensitive | src/lib.rs:52-58 | `search_case_insensitive` gives a subsequence of the original, un-lowercased lines; a line is kept, as often as it occurs, iff its lowercased form contains the lowercased query (`KeepsExactly`); `SearchWithinCaseInsensitive` and `CaseInsensitiveIgnoresQueryCase` relate it to `Search` and to the query's case |
| Minigrep.SearchEmptyContents | src/lib.rs:47-48 | Both searches of empty contents return nothing |
| Minigrep.SearchEmptyQuery | src/lib.rs:45-58 | With the empty query both searches return every line, unchanged |
| Minigrep.SearchLongQuery | src/lib.rs:45-58 | A query longer than every line makes both searches return nothing (for the case-insensitive search, with the per-character lowercasing of the model) |
| Minigrep.SearchWithinCaseInsensitive | src/lib.rs:45-58 | Every line `search` returns is returned by `search_case_insensitive`, and in the same relative order (for the per-character lowercasing of the model) |
| Minigrep.CaseInsensitiveIgnoresQueryCase | src/lib.rs:54-57 | Only the lowercased query matters: lowercasing the query first changes no case-insensitive result |
| Minigrep.PoemLines | src/lib.rs:86-89 | The test contents split into the lines "Rust:", "safe, fast, productive." and "Pick three." |
| Minigrep.OneResult | src/lib.rs:84-91 | Searching the test contents for "duct" returns exactly ["safe, fast, productive."] |
| Minigrep.CaseInsensitiveResult | src/lib.rs:95-102 | Case-insensitively searching the test contents for "DUcT" returns exactly ["safe, fast, productive."] |
| StrOps.Lines | src/lib.rs:47 | No line holds a '\n', and there are no lines exactly when the contents are empty; `LinesOfJoined` and `SplitForm` give its result on every input |
| StrOps.LinesOfJoined | src/lib.rs:47 | Splitting undoes joining with any mix of "\n" and "\r\n" breaks: the lines come back unchanged, and a non-empty last piece without a break is one more line, kept as it is even when it ends in '\r' |
| StrOps.SplitForm | src/lib.rs:47 | Every text is lines joined by "\n"/"\r\n" breaks followed by a last piece with no break, and its lines are exactly those lines plus the piece if it is non-empty |
| StrOps.LinesOfTerminated | src/lib.rs:47 | Splitting undoes joining with "\n": lines without '\n' that do not end in '\r', each followed by "\n", split back into themselves |
| StrOps.LinesOfCrlfTerminated | src/lib.rs:55 | Splitting undoes joining with "\r\n": any lines without '\n', each followed by "\r\n", split back into themselves |
| StrOps.MixedBreaks | src/lib.rs:47 | "a\nb\r\nc\r" splits into "a", "b" and "c\r": breaks may be mixed, and a last line with no break keeps its '\r' |
| StrOps.FinalNewlineOptional | src/lib.rs:47 | A final line break adds no empty line: appending "\n" to non-empty contents that end in neither '\n' nor '\r' leaves the lines unchanged |
| StrOps.LinesOccur | src/lib.rs:47-49 | Every line is a verbatim piece of the contents: it occurs in them as a substring |
| StrOps.Contains | src/lib.rs:48 | `str::contains`: the pattern occurs as a contiguous substring; the empty pattern is contained in every text, and a pattern longer than the text in none; `FirstCharAbsent` and `ContainsLower` state more |
| StrOps.FirstCharAbsent | src/lib.rs:48 | A query whose first character is absent from the line is not contained in it |
| StrOps.ContainsLower | src/lib.rs:54-56 | If a line contains the query, its lowercased form contains the lowercased query |
| StrOps.Lower | src/lib.rs:54-56 | Lowercasing keeps the length and lowercases each character on its own (ASCII letters only); `LowerIdempotent` and `ContainsLower` state its properties |
| StrOps.LowerIdempotent | src/lib.rs:54-56 | A lowercased string has no upper-case ASCII letters, and lowercasing it again changes nothing |
| Filtering.Filter | src/lib.rs:48-49 | The filter's result is no longer than its input and every element of it satisfies the predicate |
| Filtering.FilterKeepsExactly | src/lib.rs:47-49 | The filter's result is a subsequence of the input that holds each accepted element as often as the input does and no rejected element |
| Filtering.FilterUnique | src/lib.rs:47-49 | That description determines the result: any sequence meeting it equals the filter's result |
| Filtering.FilterMonotone | src/lib.rs:45-58 | Filtering with a predicate implied by another keeps a supersequence of what the stronger one keeps |
| Filtering.FilterAll | src/lib.rs:47-49 | A predicate accepting every element keeps the whole input |
| Filtering.FilterNone | src/lib.rs:47-49 | A predicate rejecting every element keeps nothing |

## Left out

- `run` (src/lib.rs:31-43) reads the file, picks one of the two searches by `ignore_case` and prints each result line. It is file I/O and printing, and the read error is only passed on, so it is not part of this model.
- The lookup of `IGNORE_CASE` (src/lib.rs:22) reads process-global state. It is the `Build` parameter `envHasIgnoreCase`, true exactly when `env::var("IGNORE_CASE")` returns `Ok`: the variable is set and its value is valid Unicode.
- StrOps.Lower: it lowercases ASCII letters one character at a time, where Rust's `to_lowercase` applies full Unicode rules, including the context-sensitive final sigma. `SearchCaseInsensitive`, `ContainsLower`, `SearchWithinCaseInsensitive`, the case-insensitive half of `SearchLongQuery` and the case-insensitive scenario hold for this lowercasing. `SearchWithinCaseInsensitive` and the case-insensitive half of `SearchLongQuery` do not hold for Rust's full Unicode lowercasing, which may change the length of a string ('İ' lowercases to "i" followed by U+0307).
- Rust strings are UTF-8 bytes. The model works on characters. For valid UTF-8, containment over bytes and over characters agree, and splitting at '\n' and '\r' is the same.
- The functions return copies of the lines, not slices borrowing from the contents. The lifetimes of the slices are not modelled.
- The unit tests call `Config::build(&args)` on a vector (src/lib.rs:71,79), which does not match the iterator parameter at src/lib.rs:12. `Build` models the intended behaviour on a sequence of arguments, not that call shape.
- Older Rust releases also removed a '\r' at the very end of contents that do not end in '\n'. `Lines` follows the current behaviour, which keeps that '\r'.
