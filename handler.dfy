/**
 * The search handler of the command-line crate: it runs the literal or the regex
 * search, highlights every matching line and assembles the report, one
 * `"{line_number}:{highlighted line}\n"` per match; the process exits with 1 when the
 * report is empty and with 0 otherwise.
 */
module Handler {
  import opened Model
  import opened Str
  import opened Errors
  import opened Search
  import opened Render

  const Colon: byte := 58

  predicate IsDigit(b: byte) {
    48 <= b <= 57
  }

  /** `format!("{}", n)`: the decimal digits of `n`, without leading zeros. */
  function Decimal(n: nat): (t: Text)
    ensures t != [] && forall i :: 0 <= i < |t| ==> IsDigit(t[i])
    ensures (t[0] == 48) == (n == 0)
    ensures n == 0 ==> t == [48]
    decreases n
  {
    if n < 10 then [(48 + n) as byte] else Decimal(n / 10) + [(48 + n % 10) as byte]
  }

  /** The number a string of decimal digits stands for. */
  function DecimalValue(t: Text): nat
    requires forall i :: 0 <= i < |t| ==> IsDigit(t[i])
    decreases |t|
  {
    if t == [] then 0
    else
      assert IsDigit(t[|t| - 1]);
      DecimalValue(t[..|t| - 1]) * 10 + (t[|t| - 1] as int - 48)
  }

  /** The line number written in a report line reads back as that number. */
  lemma {:induction false} DecimalRoundTrip(n: nat)
    ensures DecimalValue(Decimal(n)) == n
    decreases n
  {
    if n >= 10 {
      DecimalRoundTrip(n / 10);
      var t := Decimal(n);
      assert t[..|t| - 1] == Decimal(n / 10);
    }
  }

  /** Different line numbers are written differently. */
  lemma DecimalInjective(m: nat, n: nat)
    requires Decimal(m) == Decimal(n)
    ensures m == n
  {
    DecimalRoundTrip(m);
    DecimalRoundTrip(n);
  }

  /** One line of the report. */
  function ReportLine(n: nat, highlighted: Text): (t: Text)
    ensures |t| >= 3 && t[|t| - 1] == LF
  {
    Decimal(n) + [Colon] + highlighted + [LF]
  }

  /** The first colon of a report line ends its line number, which reads back. */
  lemma ReportLineNumber(n: nat, highlighted: Text)
    ensures Find(ReportLine(n, highlighted), [Colon]) == Some(|Decimal(n)|)
    ensures DecimalValue(ReportLine(n, highlighted)[..|Decimal(n)|]) == n
    ensures ReportLine(n, highlighted)[|Decimal(n)| + 1..|ReportLine(n, highlighted)| - 1] == highlighted
  {
    var t := ReportLine(n, highlighted);
    var k := |Decimal(n)|;
    assert t[..k] == Decimal(n);
    assert t[k + 1..|t| - 1] == highlighted;
    DecimalRoundTrip(n);
    FirstColon(t, Decimal(n), highlighted + [LF]);
  }

  /** The first colon after a string of digits is the one that follows them. */
  lemma FirstColon(t: Text, digits: Text, rest: Text)
    requires forall i :: 0 <= i < |digits| ==> IsDigit(digits[i])
    requires t == digits + [Colon] + rest
    ensures Find(t, [Colon]) == Some(|digits|)
  {
    var k := |digits|;
    assert t[k..k + 1] == [t[k]];
    forall j: nat | j < k ensures !Occurs(t, [Colon], j) {
      assert t[j..j + 1] == [t[j]] && t[j] == digits[j];
    }
    FindFirst(t, [Colon], k);
  }

  /**
   * The report assembled from `records`: each record's line number, a colon, its
   * highlighted line and a line feed, in order; the first highlighting error ends it.
   */
  function Report(records: seq<MatchLine>): Result<Text>
    decreases |records|
  {
    if records == [] then Ok([])
    else
      var n := |records|;
      var earlier := Report(records[..n - 1]);
      if earlier.Err? then earlier
      else
        var h := Highlighted(records[n - 1].line, records[n - 1].spans);
        if h.Err? then Err(h.error)
        else Ok(earlier.value + ReportLine(records[n - 1].lineNumber, h.value))
  }

  /** An error in a prefix of the records is the error of the whole report. */
  lemma {:induction false} ReportErrorStays(records: seq<MatchLine>, k: nat)
    requires k <= |records| && Report(records[..k]).Err?
    ensures Report(records) == Report(records[..k])
    decreases |records| - k
  {
    if k < |records| {
      var n := k + 1;
      assert records[..n][..n - 1] == records[..k];
      ReportErrorStays(records, n);
    } else {
      assert records[..k] == records;
    }
  }

  /** The report of one more record: the report so far, then that record's line. */
  lemma ReportSnoc(records: seq<MatchLine>, m: MatchLine)
    requires Report(records).Ok? && Highlighted(m.line, m.spans).Ok?
    ensures Report(records + [m])
         == Ok(Report(records).value + ReportLine(m.lineNumber, Highlighted(m.line, m.spans).value))
  {
    var r := records + [m];
    assert r[..|r| - 1] == records;
    assert r[|r| - 1] == m;
  }

  lemma ReportConcatNil(a: seq<MatchLine>)
    requires Report(a).Ok?
    ensures Report(a + []) == Ok(Report(a).value + Report([]).value)
  {
    assert a + [] == a;
    assert Report(a).value + [] == Report(a).value;
  }

  /** A report of a concatenation is the concatenation of the reports. */
  lemma {:induction false} ReportConcat(a: seq<MatchLine>, b: seq<MatchLine>)
    requires Report(a).Ok? && Report(b).Ok?
    ensures Report(a + b) == Ok(Report(a).value + Report(b).value)
    decreases |b|
  {
    if b == [] {
      ReportConcatNil(a);
    } else {
      var init := b[..|b| - 1];
      var last := b[|b| - 1];
      Snoc(b);
      assert Report(init).Ok? && Highlighted(last.line, last.spans).Ok?;
      ReportConcat(a, init);
      ReportConcatStep(a, init, last);
    }
  }

  /** The inductive step of `ReportConcat`. */
  lemma ReportConcatStep(a: seq<MatchLine>, init: seq<MatchLine>, last: MatchLine)
    requires Report(a).Ok? && Report(init).Ok? && Highlighted(last.line, last.spans).Ok?
    requires Report(a + init) == Ok(Report(a).value + Report(init).value)
    ensures Report(a + (init + [last])) == Ok(Report(a).value + Report(init + [last]).value)
  {
    var line := ReportLine(last.lineNumber, Highlighted(last.line, last.spans).value);
    ReportSnoc(init, last);
    ReportSnoc(a + init, last);
    Associative(a, init, [last]);
    Associative(Report(a).value, Report(init).value, line);
  }

  /** Every record's line can be highlighted. */
  predicate AllHighlightable(records: seq<MatchLine>) {
    forall j :: 0 <= j < |records| ==> Highlighted(records[j].line, records[j].spans).Ok?
  }

  /** The report succeeds exactly when every record's line can be highlighted. */
  lemma {:induction false} ReportOkIff(records: seq<MatchLine>)
    ensures Report(records).Ok? <==> AllHighlightable(records)
    decreases |records|
  {
    if records != [] {
      var n := |records|;
      ReportOkIff(records[..n - 1]);
      ReportOkStep(records);
      AllHighlightableStep(records);
    }
  }

  /** `Report` on a non-empty list, one level down. */
  lemma ReportOkStep(records: seq<MatchLine>)
    requires records != []
    ensures Report(records).Ok? <==>
      Report(records[..|records| - 1]).Ok?
      && Highlighted(records[|records| - 1].line, records[|records| - 1].spans).Ok?
  {
  }

  lemma AllHighlightableStep(records: seq<MatchLine>)
    requires records != []
    ensures AllHighlightable(records) <==>
      AllHighlightable(records[..|records| - 1])
      && Highlighted(records[|records| - 1].line, records[|records| - 1].spans).Ok?
  {
    var earlier := records[..|records| - 1];
    forall j | 0 <= j < |earlier| ensures earlier[j] == records[j] {
    }
  }

  /** The only error a report ends with is the highlighter's `InvalidSpan`. */
  lemma {:induction false} ReportErrorIsInvalidSpan(records: seq<MatchLine>)
    requires Report(records).Err?
    ensures Report(records).error == InvalidSpan
    decreases |records|
  {
    var n := |records|;
    if Report(records[..n - 1]).Err? {
      ReportErrorIsInvalidSpan(records[..n - 1]);
    } else {
      HighlightOkIff(records[n - 1].line, records[n - 1].spans);
    }
  }

  /** The report is empty exactly when there are no records: each record adds at least `":\n"`. */
  lemma {:induction false} ReportEmptyIff(records: seq<MatchLine>)
    requires Report(records).Ok?
    ensures Report(records).value == [] <==> records == []
    decreases |records|
  {
    if records != [] {
      var n := |records|;
      var h := Highlighted(records[n - 1].line, records[n - 1].spans);
      assert Report(records).value == Report(records[..n - 1]).value + ReportLine(records[n - 1].lineNumber, h.value);
    }
  }

  /** No record's line holds a line feed, as for lines that came from `lines()`. */
  predicate LinesWithoutLF(records: seq<MatchLine>) {
    forall j :: 0 <= j < |records| ==> LF !in records[j].line
  }

  /** The report holds exactly one line feed per record: one report line per match. */
  lemma {:induction false} ReportLineCount(records: seq<MatchLine>)
    requires Report(records).Ok? && LinesWithoutLF(records)
    ensures multiset(Report(records).value)[LF] == |records|
    decreases |records|
  {
    if records != [] {
      var n := |records|;
      var last := records[n - 1];
      ReportLineCount(records[..n - 1]);
      var h := Highlighted(last.line, last.spans).value;
      HighlightNoLF(last.line, last.spans);
      assert LF !in Decimal(last.lineNumber) by {
        assert forall i :: 0 <= i < |Decimal(last.lineNumber)| ==> IsDigit(Decimal(last.lineNumber)[i]);
      }
      assert multiset(ReportLine(last.lineNumber, h))[LF] == 1;
    }
  }

  /** What the search step of the handler returns: the literal search unless `useRegex`. */
  function Searched(input: Text, pattern: Text, useRegex: bool, ignoreCase: bool, compile: Text -> Compiled)
    : Result<seq<MatchLine>>
  {
    if pattern == [] then Err(EmptyPattern)
    else if !useRegex then Ok(MatchRecords(Lines(input), Literal(pattern)))
    else
      var c := compile(FullPattern(pattern, ignoreCase));
      if c.CompileError? then Err(Regex(c.diagnostic))
      else Ok(MatchRecords(Lines(input), Pattern(c.findIter)))
  }

  /** What `search_and_render` returns. */
  function SearchedAndRendered(input: Text, pattern: Text, useRegex: bool, ignoreCase: bool, compile: Text -> Compiled)
    : Result<Text>
  {
    var found := Searched(input, pattern, useRegex, ignoreCase, compile);
    if found.Err? then Err(found.error) else Report(found.value)
  }

  /** The matcher the handler searches with, when the search step succeeds. */
  function MatcherOf(pattern: Text, useRegex: bool, ignoreCase: bool, compile: Text -> Compiled): (m: Matcher)
    requires pattern != []
    requires useRegex ==> compile(FullPattern(pattern, ignoreCase)).Compiled?
    ensures ValidMatcher(m)
    ensures m.Literal? <==> !useRegex
  {
    if useRegex then Pattern(compile(FullPattern(pattern, ignoreCase)).findIter) else Literal(pattern)
  }

  /** A search step that succeeds returns the records of its matcher. */
  lemma SearchedRecords(input: Text, pattern: Text, useRegex: bool, ignoreCase: bool, compile: Text -> Compiled)
    requires Searched(input, pattern, useRegex, ignoreCase, compile).Ok?
    ensures pattern != [] && (useRegex ==> compile(FullPattern(pattern, ignoreCase)).Compiled?)
    ensures Searched(input, pattern, useRegex, ignoreCase, compile)
         == Ok(MatchRecords(Lines(input), MatcherOf(pattern, useRegex, ignoreCase, compile)))
  {
  }

  /** `search_and_render`. */
  method SearchAndRender(input: Text, pattern: Text, useRegex: bool, ignoreCase: bool, compile: Text -> Compiled)
    returns (r: Result<Text>)
    ensures r == SearchedAndRendered(input, pattern, useRegex, ignoreCase, compile)
  {
    var found: Result<seq<MatchLine>>;
    if useRegex {
      found := SearchRegex(input, pattern, ignoreCase, compile);
    } else {
      found := SearchLiteral(input, pattern);
    }
    if found.Err? {
      return Err(found.error);
    }
    var matches := found.value;
    var output: Text := [];
    for k := 0 to |matches|
      invariant Report(matches[..k]) == Ok(output)
    {
      var m := matches[k];
      var line := HighlightLine(m.line, m.spans);
      ReportPrefixStep(matches, k);
      if line.Err? {
        ReportErrorStays(matches, k + 1);
        return Err(line.error);
      }
      output := output + ReportLine(m.lineNumber, line.value);
    }
    assert matches[..|matches|] == matches;
    return Ok(output);
  }

  /** The report of one more record of `records`, as the loop of the handler builds it. */
  lemma ReportPrefixStep(records: seq<MatchLine>, k: nat)
    requires k < |records| && Report(records[..k]).Ok?
    ensures var h := Highlighted(records[k].line, records[k].spans);
      Report(records[..k + 1])
      == if h.Err? then Err(h.error) else Ok(Report(records[..k]).value + ReportLine(records[k].lineNumber, h.value))
  {
    assert records[..k + 1][..k] == records[..k];
  }

  /** The exit status: 1 when the output is empty, 0 otherwise. */
  function ExitCode(output: Text): int {
    if output == [] then 1 else 0
  }

  /** An empty pattern is refused before anything else, whatever the flags. */
  lemma EmptyPatternRefused(input: Text, useRegex: bool, ignoreCase: bool, compile: Text -> Compiled)
    ensures SearchedAndRendered(input, [], useRegex, ignoreCase, compile) == Err(EmptyPattern)
  {
  }

  /** A literal search does not depend on the case flag nor on the regex compiler. */
  lemma LiteralIgnoresCaseFlag(input: Text, pattern: Text, compile: Text -> Compiled, other: Text -> Compiled)
    ensures SearchedAndRendered(input, pattern, false, true, compile)
         == SearchedAndRendered(input, pattern, false, false, other)
  {
  }

  /** A pattern the engine refuses gives `Regex` with the engine's diagnostic and no report. */
  lemma CompileErrorPropagated(input: Text, pattern: Text, ignoreCase: bool, compile: Text -> Compiled)
    requires pattern != [] && compile(FullPattern(pattern, ignoreCase)).CompileError?
    ensures SearchedAndRendered(input, pattern, true, ignoreCase, compile)
         == Err(Regex(compile(FullPattern(pattern, ignoreCase)).diagnostic))
  {
  }

  /**
   * The exit code is 1 exactly when no line of the input matched; it is 0 when some
   * line did.
   */
  lemma ExitCodeIff(input: Text, pattern: Text, useRegex: bool, ignoreCase: bool, compile: Text -> Compiled)
    requires SearchedAndRendered(input, pattern, useRegex, ignoreCase, compile).Ok?
    ensures pattern != [] && (useRegex ==> compile(FullPattern(pattern, ignoreCase)).Compiled?)
    ensures var m := MatcherOf(pattern, useRegex, ignoreCase, compile);
      ExitCode(SearchedAndRendered(input, pattern, useRegex, ignoreCase, compile).value) == 1
      <==> forall i :: 0 <= i < |Lines(input)| ==> FindAll(m, Lines(input)[i]) == []
  {
    var m := MatcherOf(pattern, useRegex, ignoreCase, compile);
    var records := MatchRecords(Lines(input), m);
    SearchedRecords(input, pattern, useRegex, ignoreCase, compile);
    ReportEmptyIff(records);
    MatchRecordsEmpty(Lines(input), m);
  }

  /** The report has one line per matching input line, in the order of the input. */
  lemma ReportOnePerMatch(input: Text, pattern: Text, useRegex: bool, ignoreCase: bool, compile: Text -> Compiled)
    requires SearchedAndRendered(input, pattern, useRegex, ignoreCase, compile).Ok?
    ensures pattern != [] && (useRegex ==> compile(FullPattern(pattern, ignoreCase)).Compiled?)
    ensures var m := MatcherOf(pattern, useRegex, ignoreCase, compile);
      multiset(SearchedAndRendered(input, pattern, useRegex, ignoreCase, compile).value)[LF]
      == |MatchRecords(Lines(input), m)|
  {
    var m := MatcherOf(pattern, useRegex, ignoreCase, compile);
    var records := MatchRecords(Lines(input), m);
    SearchedRecords(input, pattern, useRegex, ignoreCase, compile);
    LinesHaveNoLF(input);
    forall j | 0 <= j < |records| ensures LF !in records[j].line {
      assert records[j].line == Lines(input)[records[j].lineNumber - 1];
    }
    ReportLineCount(records);
  }

  /** Text of 7-bit bytes only, where every offset is a character boundary. */
  predicate Ascii(t: Text) {
    forall i :: 0 <= i < |t| ==> t[i] < 128
  }

  /** In ASCII text every in-bounds span is one the highlighter accepts. */
  lemma AsciiSpansValid(line: Text, spans: seq<Span>)
    requires Ascii(line)
    requires forall i :: 0 <= i < |spans| ==> InBounds(line, spans[i])
    ensures Highlighted(line, spans).Ok?
  {
    HighlightOkIff(line, spans);
    forall i | 0 <= i < |spans| ensures ValidSpan(line, spans[i]) {
      assert InBounds(line, spans[i]);
    }
  }

  /** The lines of ASCII text are ASCII. */
  lemma AsciiLines(input: Text)
    requires Ascii(input)
    ensures forall i :: 0 <= i < |Lines(input)| ==> Ascii(Lines(input)[i])
  {
    LinesWithin(input);
    forall i, j | 0 <= i < |Lines(input)| && 0 <= j < |Lines(input)[i]| ensures Lines(input)[i][j] < 128 {
      var l := Lines(input)[i];
      assert l[j] in l;
      assert l[j] in input;
      var k :| 0 <= k < |input| && input[k] == l[j];
    }
  }

  /**
   * On ASCII input the handler never fails to highlight: a non-empty literal pattern
   * always gives a report, and so does a regex whose engine keeps its spans in bounds.
   */
  lemma AsciiReportSucceeds(input: Text, pattern: Text, useRegex: bool, ignoreCase: bool, compile: Text -> Compiled)
    requires Ascii(input)
    requires Searched(input, pattern, useRegex, ignoreCase, compile).Ok?
    requires useRegex ==> (
      && compile(FullPattern(pattern, ignoreCase)).Compiled?
      && forall i :: 0 <= i < |Lines(input)| ==>
        EngineSpans(Lines(input)[i], compile(FullPattern(pattern, ignoreCase)).findIter(Lines(input)[i])))
    ensures SearchedAndRendered(input, pattern, useRegex, ignoreCase, compile).Ok?
  {
    SearchedRecords(input, pattern, useRegex, ignoreCase, compile);
    var lines := Lines(input);
    var m := MatcherOf(pattern, useRegex, ignoreCase, compile);
    var records := MatchRecords(lines, m);
    AsciiLines(input);
    if useRegex {
      RegexRecordsValid(lines, m.findIter);
    } else {
      LiteralRecordsValid(lines, pattern);
    }
    forall j | 0 <= j < |records| ensures Highlighted(records[j].line, records[j].spans).Ok? {
      assert ValidMatchLine(records[j]);
      assert Ascii(lines[records[j].lineNumber - 1]);
      AsciiSpansValid(records[j].line, records[j].spans);
    }
    ReportOkIff(records);
  }

  /** `"alpha\nbeta\n"` splits into its two lines. */
  lemma AlphaBetaLines(alpha: Text, beta: Text)
    requires alpha == [97, 108, 112, 104, 97] && beta == [98, 101, 116, 97]
    ensures Lines([97, 108, 112, 104, 97, 10, 98, 101, 116, 97, 10]) == [alpha, beta]
  {
    assert [alpha, beta][1..] == [beta] && [beta][1..] == [];
    assert Terminator(false) == [LF];
    assert Terminated([beta], false) == beta + [LF] + Terminated([], false);
    assert Terminated([alpha, beta], false) == alpha + [LF] + Terminated([beta], false);
    assert [97, 108, 112, 104, 97, 10, 98, 101, 116, 97, 10] == Terminated([alpha, beta], false) + [];
    LinesOfTerminated([alpha, beta], false, []);
    assert [alpha, beta] + [] == [alpha, beta];
  }

  /** `"alpha"` with its match `0..3` highlighted: emphasized `"alp"`, then `"ha"`. */
  lemma AlphaHighlighted(alpha: Text)
    requires alpha == [97, 108, 112, 104, 97]
    ensures Highlighted(alpha, [Span(0, 3)]) == Ok(Emph([97, 108, 112]) + [104, 97])
  {
    assert [Span(0, 3)][1..] == [];
    assert alpha[0..3] == [97, 108, 112] && alpha[3..] == [104, 97];
    assert Gap(alpha, 0, 0) == Ok([]);
    assert SegmentsFrom(alpha, [], 3) == Ok([Plain([104, 97])]);
    var segs := [Emphasized([97, 108, 112]), Plain([104, 97])];
    assert ([] + [Emphasized([97, 108, 112])]) + [Plain([104, 97])] == segs;
    assert HighlightSegments(alpha, [Span(0, 3)]) == Ok(segs);
    assert segs[1..] == [Plain([104, 97])] && segs[1..][1..] == [];
    assert Output(segs[1..]) == [104, 97] + Output([]) == [104, 97];
  }

  /** The one record of the command-line test. */
  lemma StdinRecords()
    ensures MatchRecords(Lines([97, 108, 112, 104, 97, 10, 98, 101, 116, 97, 10]), Literal([97, 108, 112]))
         == [MatchLine(1, [97, 108, 112, 104, 97], [Span(0, 3)])]
  {
    var alpha: Text := [97, 108, 112, 104, 97];
    var beta: Text := [98, 101, 116, 97];
    var alp: Text := [97, 108, 112];
    AlphaBetaLines(alpha, beta);
    ExampleScans(alpha, beta, alp);
    RecordsOfTwo(alpha, beta, Literal(alp));
  }

  lemma RecordsOfTwo(a: Text, b: Text, m: Matcher)
    requires ValidMatcher(m)
    requires FindAll(m, a) != [] && FindAll(m, b) == []
    ensures MatchRecords([a, b], m) == [MatchLine(1, a, FindAll(m, a))]
  {
    assert [a, b][..1] == [a] && [a][..0] == [];
    assert MatchRecords([a], m) == [MatchLine(1, a, FindAll(m, a))];
  }

  /** The report of that record. */
  lemma StdinReport()
    ensures Report([MatchLine(1, [97, 108, 112, 104, 97], [Span(0, 3)])])
         == Ok([49, 58] + Emph([97, 108, 112]) + [104, 97, 10])
  {
    var rec := MatchLine(1, [97, 108, 112, 104, 97], [Span(0, 3)]);
    AlphaHighlighted(rec.line);
    assert [rec][..0] == [];
    assert Decimal(1) == [49];
    assert [] + ReportLine(1, Emph([97, 108, 112]) + [104, 97]) == [49, 58] + Emph([97, 108, 112]) + [104, 97, 10];
  }

  /**
   * The command-line test: searching `"alpha\nbeta\n"` for `"alp"` reports line 1
   * with `"alp"` emphasized and `"ha"` after it, so the output holds both.
   */
  lemma StdinSearchExample(compile: Text -> Compiled)
    ensures SearchedAndRendered([97, 108, 112, 104, 97, 10, 98, 101, 116, 97, 10], [97, 108, 112], false, false, compile)
         == Ok([49, 58] + Emph([97, 108, 112]) + [104, 97, 10])
  {
    StdinRecords();
    StdinReport();
  }

  /** The output of the command-line test holds `"alp"` and `"ha"`. */
  lemma StdinOutputHolds(out: Text)
    requires out == [49, 58] + Emph([97, 108, 112]) + [104, 97, 10]
    ensures Contains(out, [97, 108, 112]) && Contains(out, [104, 97])
  {
    ContainsIff(out, [97, 108, 112]);
    var alp := 2 + |EmphOpen|;
    var ha := 5 + |EmphOpen| + |EmphClose|;
    assert Occurs(out, [97, 108, 112], alp) by {
      assert out[alp..alp + 3] == [97, 108, 112];
    }
    ContainsIff(out, [104, 97]);
    assert Occurs(out, [104, 97], ha) by {
      assert out[ha..ha + 2] == [104, 97];
    }
  }
}
