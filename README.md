# A verified model of a small grep-like tool

This project models the core of a small grep-like command-line tool in Dafny and proves
its properties. The tool has three parts:

- a core crate with a **literal line search** (`search_literal`), a **regex line search**
  (`search_regex`), **span highlighting** (`highlight_line`) and the crate's **error
  type**;
- a command-line **search handler** (`search_and_render`). It runs one of the two
  searches and assembles the report, one `"{line_number}:{highlighted line}\n"` per
  matching line;
- the **exit rule**: the process exits with 1 when the report is empty and with 0
  otherwise.

Text is modelled as bytes (`seq<byte>`), because every offset in the source is a byte
offset. The `str` operations the core relies on are written out in module `Str`:
`find`, `contains`, `lines`, `is_char_boundary`, and `get` on ranges. `Str.Get` and
`Str.GetFrom` are the definitions of `str::get(a..b)` and `str::get(a..)`: the slice when
both ends are character boundaries (and `a <= b`), `None` otherwise; what that means for
the highlighter is proved as `Render.HighlightOkIff`. The regex engine
is a foreign library, so it enters the model as a parameter, `compile: Text -> Compiled`.
That function either refuses the pattern with a diagnostic or yields the engine's
`find_iter` as a function from a line to its spans.

Modules, one per source file:

- `Errors` (error.rs): the `Error` enum, its display strings and its constructors.
- `Model` (model.rs): `Span` and the `MatchLine` record.
- `Str`: the standard-library string operations listed above.
- `Search` (search.rs): the two searches.
- `Render` (render.rs): the highlighter.
- `Handler` (handlers/search.rs and executor.rs:68): report assembly and the exit rule.

Each loop of the source is a `method` with the same loop. It is proved equal to a
specification function, and the properties are lemmas about that function:

- `Search.SearchLiteral` / `Search.ScanLine` are proved against `Search.MatchRecords` and
  `Search.ScanFrom`.
- `Render.HighlightLine` is proved against `Render.Highlighted`. That function is defined
  through the segments the output is made of: verbatim text and emphasized text.
- `Handler.SearchAndRender` is proved against `Handler.SearchedAndRendered`.

## Model

| member | source | states |
|---|---|---|
| `Errors.FixedDisplays` | crates/core/src/error.rs:19-39 | `EmptyPattern`, `Regex(_)` and `InvalidSpan` display as "empty pattern", "regex error" and "invalid span"; the regex diagnostic does not change the text, and the fixed texts tell the three variants apart |
| `Errors.MakeCustom` | crates/core/src/error.rs:63-65 | `custom(val)` is a `Custom` error that displays exactly `val` |
| `Errors.CustomFromErr` | crates/core/src/error.rs:49-51 | `custom_from_err(err)` is a `Custom` error that displays exactly the foreign error's display text |
| `Errors.FromText` | crates/core/src/error.rs:36-39 | converting a string into an `Error` gives a `Custom` error whose display text is that string |
| `Errors.ErrorModuleTests` | crates/core/src/error.rs:74-101 | the four unit tests: "something went wrong", "io error", "string error" and "str error" each become `Custom` errors that display that text |
| `Str.FindLeftmost` | crates/core/src/search.rs:33 | `find` returns an offset where the pattern occurs, with no occurrence before it, and `None` only when the pattern occurs nowhere |
| `Str.FindFirst` | crates/core/src/search.rs:33 | an occurrence with none before it is exactly the offset `find` returns |
| `Str.ContainsIff` | crates/core/src/search.rs:30 | `contains` holds exactly when the pattern occurs at some offset |
| `Str.LineEndFirst` | crates/core/src/search.rs:29 | the end of the first line is the first line feed, or the end of the text |
| `Str.LinesHaveNoLF` | crates/core/src/search.rs:29 | no line returned by `lines()` holds a line feed |
| `Str.LinesOfTerminated` | crates/core/src/search.rs:29 | `lines()` returns each `\n`- or `\r\n`-terminated line without its terminator, so a final terminator adds no empty line |
| `Str.UnterminatedLine` | crates/core/src/search.rs:29 | a last line without terminator comes back unchanged |
| `Str.LinesWithin` | crates/core/src/search.rs:29 | every byte of every line is a byte of the input |
| `Search.ScanSound` | crates/core/src/search.rs:33-40 | every span of the cursor loop is an occurrence of the pattern, `end == start + len(pattern)`, within the line, and the spans run left to right without overlap |
| `Search.ScanComplete` | crates/core/src/search.rs:32-40 | every occurrence of the pattern is covered by some span of the loop (skipped occurrences begin inside an earlier span) |
| `Search.ContainsIffScan` | crates/core/src/search.rs:30-33 | a line contains the pattern exactly when the cursor loop finds at least one span |
| `Search.OverlapExample` | crates/core/src/search.rs:32-40 | `"aa"` in `"aaaa"` gives exactly the spans `0..2` and `2..4` |
| `Search.MatchRecords` | crates/core/src/search.rs:28-51 | each record carries a line number between 1 and the number of lines, the text of that line and its non-empty span list; line numbers strictly ascend |
| `Search.MatchRecordsComplete` | crates/core/src/search.rs:29-48 | every line with a non-empty span list gets a record with its 1-based number |
| `Search.MatchRecordsEmpty` | crates/core/src/search.rs:29-51 | a search returns no records exactly when no line has a span |
| `Search.LiteralRecordsValid` | crates/core/src/search.rs:30-47 | literal records have line numbers from 1 and non-empty, in-bounds, non-overlapping spans, each an occurrence of the pattern, with strictly increasing starts |
| `Search.RegexRecordsValid` | crates/core/src/search.rs:88-99 | whenever the engine returns in-bounds, left-to-right spans, regex records have line numbers from 1 and non-empty span lists of in-bounds spans running left to right |
| `Search.LiteralSearchExample` | crates/core/src/search.rs:114-121 | `"alpha\nbeta\nalp"` searched for `"alp"` gives exactly two records, lines 1 and 3, each with the span `0..3` |
| `Search.RegexSearchExample` | crates/core/src/search.rs:123-129 | with `ignore_case` the compiled pattern is `"(?i)alp"`; for an engine that matches `"Alpha"` and `"ALP"` but not `"beta"`, `"Alpha\nbeta\nALP"` gives two records, lines 1 and 3 |
| `Search.LiteralIsCaseSensitive` | crates/core/src/search.rs:30-33 | the literal search compares bytes exactly: `"alpha"` is not found in `"Alpha"` |
| `Search.ScanLine` | crates/core/src/search.rs:31-41 | the `while let` cursor loop builds exactly the spans `ScanFrom` describes |
| `Search.SearchLiteral` | crates/core/src/search.rs:23-52 | an empty pattern gives `Err(EmptyPattern)`; otherwise the one record per matching line that `MatchRecords` describes |
| `Search.CollectSpans` | crates/core/src/search.rs:89-92 | the spans pushed for a line are exactly the engine's matches for it, in the engine's order |
| `Search.SearchRegex` | crates/core/src/search.rs:74-103 | an empty pattern gives `Err(EmptyPattern)` before compiling; the pattern is compiled with `(?i)` in front exactly when `ignore_case`; a refused pattern gives `Err(Regex(diagnostic))` and no records; otherwise the records of the lines with engine matches |
| `Render.SegmentsOkIff` | crates/core/src/render.rs:33-50 | the span loop succeeds exactly when every span is in bounds with both ends on character boundaries; its only error is `InvalidSpan` |
| `Render.HighlightOkIff` | crates/core/src/render.rs:33-52 | `highlight_line` returns `Ok` exactly when every span is in bounds and on character boundaries, whatever their order; otherwise `Err(InvalidSpan)`, with no partial output |
| `Render.HighlightIdentity` | crates/core/src/render.rs:26-28 | with no spans the line comes back unchanged |
| `Render.SegmentsStrip` | crates/core/src/render.rs:38-50 | for spans that run left to right after the cursor, the gaps, span texts and tail put together are the line from the cursor on |
| `Render.HighlightStrip` | crates/core/src/render.rs:30-52 | for spans in order without overlap, removing the emphasis gives back the original line exactly |
| `Render.SegmentsEmphasized` | crates/core/src/render.rs:33-46 | each span becomes one emphasized segment holding exactly its text, in span order, overlapping or not |
| `Render.HighlightEmphasized` | crates/core/src/render.rs:30-52 | a successful highlight emphasizes exactly the spans' texts, one per span, in order |
| `Render.OverlapAccepted` | crates/core/src/render.rs:33-45 | ordering is not checked: `"abc"` with the spans `0..2` and `1..3` succeeds, with both texts emphasized and no gap between them |
| `Render.AlphaBetaSegments` | crates/core/src/render.rs:64-69 | `"alpha beta"` with the spans `0..5` and `6..7` is: emphasized `"alpha"`, `" "`, emphasized `"b"`, `"eta"` |
| `Render.HighlightsWithColors` | crates/core/src/render.rs:63-69 | the unit test: that highlighted line succeeds and contains `ESC[` |
| `Render.OutputNoLF` | crates/core/src/render.rs:43 | emphasis adds no line feed |
| `Render.HighlightNoLF` | crates/core/src/render.rs:25-53 | a line without line feeds highlights to output without line feeds |
| `Render.HighlightLine` | crates/core/src/render.rs:25-53 | the loop returns exactly `Highlighted(line, spans)`: the copied gaps, the emphasized spans and the copied tail, or `InvalidSpan` |
| `Handler.Decimal` | crates/cli/src/handlers/search.rs:38 | the line number is written as a non-empty string of decimal digits with no leading zero |
| `Handler.DecimalRoundTrip` | crates/cli/src/handlers/search.rs:38 | the written digits read back as the line number |
| `Handler.DecimalInjective` | crates/cli/src/handlers/search.rs:38 | different line numbers are written differently |
| `Handler.ReportLine` | crates/cli/src/handlers/search.rs:38 | a report line has at least three bytes and ends with a line feed |
| `Handler.ReportLineNumber` | crates/cli/src/handlers/search.rs:38 | the first colon of a report line ends its line number, which reads back; the rest up to the line feed is the highlighted line |
| `Handler.ReportErrorStays` | crates/cli/src/handlers/search.rs:36-37 | once highlighting a record fails, that error is the handler's result: no partial report |
| `Handler.ReportSnoc` | crates/cli/src/handlers/search.rs:36-39 | one more record appends its report line to the report so far |
| `Handler.ReportConcat` | crates/cli/src/handlers/search.rs:35-41 | the report of two runs of records is the first run's report followed by the second's: records keep their order |
| `Handler.ReportOkIff` | crates/cli/src/handlers/search.rs:36-41 | the report succeeds exactly when every record's line can be highlighted |
| `Handler.ReportErrorIsInvalidSpan` | crates/cli/src/handlers/search.rs:37 | a failed report fails with `InvalidSpan` |
| `Handler.ReportEmptyIff` | crates/cli/src/handlers/search.rs:35-41 | a successful report is empty exactly when there are no records |
| `Handler.ReportLineCount` | crates/cli/src/handlers/search.rs:35-41 | a report of records whose lines hold no line feeds holds exactly one line feed per record |
| `Handler.SearchedRecords` | crates/cli/src/handlers/search.rs:28-32 | a successful search step means a non-empty pattern, and a compiled regex when the flag is on, and returns that matcher's records |
| `Handler.SearchAndRender` | crates/cli/src/handlers/search.rs:21-42 | the handler returns the search error, or the first highlighting error, or the in-order concatenation of the report lines of the records |
| `Handler.EmptyPatternRefused` | crates/cli/src/handlers/search.rs:28-32 | an empty pattern gives `Err(EmptyPattern)` whatever the flags |
| `Handler.LiteralIgnoresCaseFlag` | crates/cli/src/handlers/search.rs:28-32 | without the regex flag, neither the case flag nor the regex engine changes the result |
| `Handler.CompileErrorPropagated` | crates/cli/src/handlers/search.rs:28-29 | a refused regex gives `Err(Regex(diagnostic))` and no report |
| `Handler.ExitCodeIff` | crates/cli/src/cli/executor.rs:68 | after a successful run, the exit code is 1 exactly when no input line matched, and 0 otherwise |
| `Handler.ReportOnePerMatch` | crates/cli/src/handlers/search.rs:35-41 | the output holds exactly one line feed per matching input line |
| `Handler.AsciiSpansValid` | crates/core/src/render.rs:33-42 | in ASCII text every in-bounds span highlights successfully |
| `Handler.AsciiLines` | crates/core/src/search.rs:29 | the lines of ASCII input are ASCII |
| `Handler.AsciiReportSucceeds` | crates/cli/src/handlers/search.rs:28-41 | on ASCII input a search that succeeds always yields a report: literal spans, and engine spans within bounds, never make highlighting fail |
| `Handler.StdinSearchExample` | crates/cli/tests/cli_search.rs:33-41 | `"alpha\nbeta\n"` searched for `"alp"` reports `"1:"`, emphasized `"alp"`, then `"ha\n"` |
| `Handler.StdinOutputHolds` | crates/cli/tests/cli_search.rs:38-39 | that output contains `"alp"` and `"ha"` |

## Left out

- The regex engine (`regex::Regex::new` and `find_iter`) is a foreign library. It is the parameter `compile`. Lemmas about regex results assume only what they state about the engine: spans within bounds and left to right.
- The exact bytes `owo_colors` produces for `yellow().bold()` are a foreign call. The model fixes them as the constants `EmphOpen` and `EmphClose` (`ESC[1m ESC[33m` … `ESC[39m ESC[0m`). The general lemmas rely only on `EmphOpen` starting with `ESC[` and on neither constant holding a line feed; the concrete examples state their outputs through `Emph` and the lengths of the two constants, not through their bytes. The strip property is stated on the segment list the output is made of.
- Reading the file or standard input, `print!`, the verbose `eprintln!` output, argument parsing and `process::exit` are I/O. Only the exit-code rule is modelled, as `Handler.ExitCode`.
- The command-line error wrapper (`Io` or `Core`) has no behaviour beyond wrapping. `Handler.SearchAndRender` returns the core error directly, and I/O errors do not arise without I/O.
- The integration test spawns a process. Only its search-and-render part is modelled (`Handler.StdinSearchExample`).
- The `ping` smoke function of the core crate's lib.rs has no behaviour worth verifying.
- `std::error::Error` values are seen only through their display text (`Errors.ForeignError`). `regex::Error` is seen only through its diagnostic string.
- Integer widths: `usize` arithmetic (`start + pattern.len()`, `index + 1`, `span.end`) is unbounded in the model. The source's values are bounded by the input length, so they cannot wrap.
- UTF-8 validity of `&str` is not modelled: a `Text` may hold any bytes. `line[offset..]` in `search_literal` would panic on an offset inside a character. The model slices bytes without that check. On valid UTF-8 input with a valid pattern the offset is always a boundary, but the model does not prove this. It proves the ASCII case of the related guarantee, that highlighting search results never fails (`Handler.AsciiReportSucceeds`).
- `Search.RegexRecordsValid`: does not prove strictly increasing span starts for regex records, because that order is a property of the engine's `find_iter`, which is a parameter here; the engine hypothesis `EngineSpans` admits repeated empty matches at one offset.
- `Search.RegexSearchExample`: the test's case-insensitive matching is a hypothesis about the engine function. It is not derived from `(?i)`.
- The doc comment of `highlight_line` (render.rs:23-24) speaks of rejecting overlapping spans. The code checks no order or overlap, and the model follows the code (`Render.OverlapAccepted`).
