/** Literal and regular-expression line search (`search_literal`, `search_regex`). */
module Search {
  import opened Errors
  import opened Model
  import opened Str

  /**
   * How one line is searched: the greedy literal scan, or the engine's `find_iter`
   * of a compiled regular expression.
   */
  datatype Matcher = Literal(pattern: Text) | Pattern(findIter: Text -> seq<Span>)

  predicate ValidMatcher(m: Matcher) {
    m.Literal? ==> m.pattern != []
  }

  /**
   * The spans the literal scan reports from `offset` on: the leftmost occurrence at
   * or after `offset`, then the scan resumed at that occurrence's end, stopping when
   * nothing is found or the end reaches the line's length.
   */
  function ScanFrom(line: Text, p: Text, offset: nat): seq<Span>
    requires p != [] && offset <= |line|
    decreases |line| - offset
  {
    var found := Find(line[offset..], p);
    if found.None? then []
    else
      var start := offset + found.value;
      var end := start + |p|;
      [Span(start, end)] + (if end >= |line| then [] else ScanFrom(line, p, end))
  }

  /** One step of the scan. */
  lemma {:induction false} ScanStep(line: Text, p: Text, offset: nat, found: Option<nat>)
    requires p != [] && offset <= |line| && found == Find(line[offset..], p)
    ensures found.None? ==> ScanFrom(line, p, offset) == []
    ensures found.Some? ==> offset + found.value + |p| <= |line|
    ensures found.Some? && offset + found.value + |p| >= |line| ==>
      ScanFrom(line, p, offset) == [Span(offset + found.value, offset + found.value + |p|)]
    ensures found.Some? && offset + found.value + |p| < |line| ==>
      ScanFrom(line, p, offset)
      == [Span(offset + found.value, offset + found.value + |p|)] + ScanFrom(line, p, offset + found.value + |p|)
  {
    if found.Some? && offset + found.value + |p| >= |line| {
      assert [Span(offset + found.value, offset + found.value + |p|)] + [] == [Span(offset + found.value, offset + found.value + |p|)];
    }
  }

  /** Every span starts at or after `offset`. */
  predicate StartAfter(offset: nat, spans: seq<Span>) {
    forall i :: 0 <= i < |spans| ==> offset <= spans[i].start
  }

  /** Every span is an occurrence of `p`, with `end == start + |p|`. */
  predicate Hits(line: Text, p: Text, spans: seq<Span>) {
    forall i :: 0 <= i < |spans| ==> spans[i].end == spans[i].start + |p| && Occurs(line, p, spans[i].start)
  }

  /** Every span is an occurrence of `p` at or after `offset`, with `end == start + |p|`. */
  predicate Occurrences(line: Text, p: Text, offset: nat, spans: seq<Span>) {
    StartAfter(offset, spans) && Hits(line, p, spans)
  }

  /** The occurrence `Find` reports from `offset` is an occurrence in the whole line. */
  lemma FindFrom(line: Text, p: Text, offset: nat)
    requires offset <= |line| && Find(line[offset..], p).Some?
    ensures Occurs(line, p, offset + Find(line[offset..], p).value)
  {
    var found := Find(line[offset..], p).value;
    FindLeftmost(line[offset..], p);
    assert line[offset..][found..found + |p|] == line[offset + found..offset + found + |p|];
  }

  /** Prepending a span that ends where the rest starts keeps the spans in order. */
  lemma ConsOrdered(offset: nat, s: Span, rest: seq<Span>, spans: seq<Span>)
    requires offset <= s.start <= s.end
    requires StartAfter(s.end, rest) && LeftToRight(rest)
    requires spans == [s] + rest
    ensures StartAfter(offset, spans) && LeftToRight(spans)
  {
    forall i, j | 0 <= i < j < |spans| ensures spans[i].end <= spans[j].start {
      if i > 0 {
        assert spans[i] == rest[i - 1] && spans[j] == rest[j - 1];
      } else {
        assert spans[j] == rest[j - 1];
      }
    }
    forall i | 0 <= i < |spans| ensures offset <= spans[i].start {
      if i > 0 {
        assert spans[i] == rest[i - 1];
      }
    }
  }

  /** Prepending one occurrence keeps every span an occurrence. */
  lemma ConsHit(line: Text, p: Text, s: Span, rest: seq<Span>, spans: seq<Span>)
    requires s.end == s.start + |p| && Occurs(line, p, s.start)
    requires Hits(line, p, rest) && spans == [s] + rest
    ensures Hits(line, p, spans)
  {
    forall i | 0 <= i < |spans| ensures spans[i].end == spans[i].start + |p| && Occurs(line, p, spans[i].start) {
      if i > 0 {
        assert spans[i] == rest[i - 1];
      }
    }
  }

  /**
   * The literal scan reports occurrences of the pattern, each `|p|` bytes long, at or
   * after the starting offset, left to right and without overlap.
   */
  lemma ScanSound(line: Text, p: Text, offset: nat)
    requires p != [] && offset <= |line|
    ensures Occurrences(line, p, offset, ScanFrom(line, p, offset))
    ensures LeftToRight(ScanFrom(line, p, offset))
  {
    ScanOrdered(line, p, offset);
    ScanHits(line, p, offset);
  }

  /** The scan's spans start at or after `offset` and run left to right. */
  lemma {:induction false} ScanOrdered(line: Text, p: Text, offset: nat)
    requires p != [] && offset <= |line|
    ensures StartAfter(offset, ScanFrom(line, p, offset)) && LeftToRight(ScanFrom(line, p, offset))
    decreases |line| - offset
  {
    var found := Find(line[offset..], p);
    ScanStep(line, p, offset, found);
    if found.Some? {
      var start := offset + found.value;
      var end := start + |p|;
      if end < |line| {
        ScanOrdered(line, p, end);
        ConsOrdered(offset, Span(start, end), ScanFrom(line, p, end), ScanFrom(line, p, offset));
      } else {
        ConsOrdered(offset, Span(start, end), [], ScanFrom(line, p, offset));
      }
    }
  }

  /** The scan's spans are occurrences of the pattern. */
  lemma {:induction false} ScanHits(line: Text, p: Text, offset: nat)
    requires p != [] && offset <= |line|
    ensures Hits(line, p, ScanFrom(line, p, offset))
    decreases |line| - offset
  {
    var found := Find(line[offset..], p);
    ScanStep(line, p, offset, found);
    if found.Some? {
      var start := offset + found.value;
      var end := start + |p|;
      FindFrom(line, p, offset);
      if end < |line| {
        ScanHits(line, p, end);
        ConsHit(line, p, Span(start, end), ScanFrom(line, p, end), ScanFrom(line, p, offset));
      } else {
        ConsHit(line, p, Span(start, end), [], ScanFrom(line, p, offset));
      }
    }
  }

  /** An occurrence in the suffix from `offset` is an occurrence in the line, and back. */
  lemma OccursInSuffix(line: Text, p: Text, offset: nat, k: nat)
    requires offset <= k && offset <= |line|
    ensures Occurs(line[offset..], p, k - offset) <==> Occurs(line, p, k)
  {
    if k + |p| <= |line| {
      assert line[offset..][k - offset..k - offset + |p|] == line[k..k + |p|];
    }
  }

  /** Offset `k` lies inside one of the spans. */
  predicate Covered(spans: seq<Span>, k: nat) {
    exists i :: 0 <= i < |spans| && spans[i].start <= k < spans[i].end
  }

  lemma CoveredCons(s: Span, rest: seq<Span>, spans: seq<Span>, k: nat)
    requires Covered(rest, k) && spans == [s] + rest
    ensures Covered(spans, k)
  {
    var i :| 0 <= i < |rest| && rest[i].start <= k < rest[i].end;
    assert spans[i + 1] == rest[i];
  }

  /**
   * The scan misses nothing: every occurrence of `p` at or after `offset` starts
   * inside one of the reported spans (either at its start or overlapping it).
   */
  lemma ScanComplete(line: Text, p: Text, offset: nat, k: nat)
    requires p != [] && offset <= |line|
    requires offset <= k && Occurs(line, p, k)
    ensures Covered(ScanFrom(line, p, offset), k)
  {
    forall o: nat | o <= k ensures FindsBy(line, p, o, k) {
      FindBefore(line, p, o, k);
    }
    ScanCovers(line, p, offset, k);
  }

  /** Searching from `o` finds an occurrence that starts at or before `k`. */
  predicate FindsBy(line: Text, p: Text, o: nat, k: nat) {
    o <= |line| && Find(line[o..], p).Some? && o + Find(line[o..], p).value <= k
  }

  /** The induction behind `ScanComplete`, with the occurrence at `k` seen through `Find`. */
  lemma {:induction false} ScanCovers(line: Text, p: Text, offset: nat, k: nat)
    requires p != [] && offset <= k < |line|
    requires forall o: nat :: o <= k ==> FindsBy(line, p, o, k)
    ensures Covered(ScanFrom(line, p, offset), k)
    decreases |line| - offset
  {
    var found := Find(line[offset..], p);
    assert FindsBy(line, p, offset, k);
    ScanStep(line, p, offset, found);
    var start := offset + found.value;
    var end := start + |p|;
    if k < end {
      FirstCovered(ScanFrom(line, p, offset), Span(start, end), k);
    } else {
      ScanCovers(line, p, end, k);
      CoveredCons(Span(start, end), ScanFrom(line, p, end), ScanFrom(line, p, offset), k);
    }
  }

  /** `Find` from `offset` stops at or before any later occurrence. */
  lemma FindBefore(line: Text, p: Text, offset: nat, k: nat)
    requires offset <= k && offset <= |line| && Occurs(line, p, k)
    ensures Find(line[offset..], p).Some? && Find(line[offset..], p).value <= k - offset
  {
    FindLeftmost(line[offset..], p);
    OccursInSuffix(line, p, offset, k);
  }

  lemma FirstCovered(spans: seq<Span>, s: Span, k: nat)
    requires spans != [] && spans[0] == s && s.start <= k < s.end
    ensures Covered(spans, k)
  {
  }

  /** `contains` holds exactly when the scan reports a span. */
  lemma ContainsIffScan(line: Text, p: Text)
    requires p != []
    ensures Contains(line, p) <==> ScanFrom(line, p, 0) != []
  {
    assert line[0..] == line;
  }

  /** Searching `"aa"` in `"aaaa"` gives `0..2` and `2..4`, not three overlapping hits. */
  lemma OverlapExample()
    ensures ScanFrom([97, 97, 97, 97], [97, 97], 0) == [Span(0, 2), Span(2, 4)]
  {
    var line: Text := [97, 97, 97, 97];
    var p: Text := [97, 97];
    assert line[0..] == line;
    assert Find(line, p) == Some(0);
    assert line[2..] == [97, 97];
    assert Find(line[2..], p) == Some(0);
  }

  /** The spans a matcher reports for one line. */
  function FindAll(m: Matcher, line: Text): seq<Span>
    requires ValidMatcher(m)
  {
    match m
    case Literal(p) => ScanFrom(line, p, 0)
    case Pattern(findIter) => findIter(line)
  }

  /**
   * The records a search emits for `lines`: one per line with a non-empty span list,
   * in input order, numbered from 1.
   */
  function MatchRecords(lines: seq<Text>, m: Matcher): (r: seq<MatchLine>)
    requires ValidMatcher(m)
    ensures forall j :: 0 <= j < |r| ==>
      && 1 <= r[j].lineNumber <= |lines|
      && r[j].line == lines[r[j].lineNumber - 1]
      && r[j].spans == FindAll(m, r[j].line)
      && r[j].spans != []
    ensures forall i, j :: 0 <= i < j < |r| ==> r[i].lineNumber < r[j].lineNumber
    decreases |lines|
  {
    if lines == [] then []
    else
      var n := |lines|;
      var line := lines[n - 1];
      var spans := FindAll(m, line);
      var earlier := MatchRecords(lines[..n - 1], m);
      earlier + (if spans != [] then [MatchLine(n, line, spans)] else [])
  }

  /** The records of one more line. */
  lemma MatchRecordsStep(lines: seq<Text>, m: Matcher, i: nat)
    requires ValidMatcher(m) && i < |lines|
    ensures MatchRecords(lines[..i + 1], m)
         == MatchRecords(lines[..i], m)
            + (if FindAll(m, lines[i]) != [] then [MatchLine(i + 1, lines[i], FindAll(m, lines[i]))] else [])
  {
    assert lines[..i + 1][..i] == lines[..i];
  }

  /** Some record carries line number `n`. */
  predicate Reported(r: seq<MatchLine>, n: nat) {
    exists j :: 0 <= j < |r| && r[j].lineNumber == n
  }

  /** No line is dropped: every line with a non-empty span list has its record. */
  lemma {:induction false} MatchRecordsComplete(lines: seq<Text>, m: Matcher, i: nat)
    requires ValidMatcher(m)
    requires i < |lines| && FindAll(m, lines[i]) != []
    ensures Reported(MatchRecords(lines, m), i + 1)
    decreases |lines|
  {
    var n := |lines|;
    var earlier := MatchRecords(lines[..n - 1], m);
    var r := MatchRecords(lines, m);
    var spans := FindAll(m, lines[n - 1]);
    var extra := if spans != [] then [MatchLine(n, lines[n - 1], spans)] else [];
    assert r == earlier + extra;
    if i == n - 1 {
      ReportedLast(earlier, MatchLine(n, lines[n - 1], spans), r);
    } else {
      assert lines[..n - 1][i] == lines[i];
      MatchRecordsComplete(lines[..n - 1], m, i);
      ReportedExtend(earlier, extra, r, i + 1);
    }
  }

  lemma ReportedLast(earlier: seq<MatchLine>, x: MatchLine, r: seq<MatchLine>)
    requires r == earlier + [x]
    ensures Reported(r, x.lineNumber)
  {
    assert r[|earlier|] == x;
  }

  lemma ReportedExtend(earlier: seq<MatchLine>, extra: seq<MatchLine>, r: seq<MatchLine>, n: nat)
    requires r == earlier + extra && Reported(earlier, n)
    ensures Reported(r, n)
  {
    var j :| 0 <= j < |earlier| && earlier[j].lineNumber == n;
    assert r[j] == earlier[j];
  }

  /** A search emits nothing exactly when no line has a span. */
  lemma MatchRecordsEmpty(lines: seq<Text>, m: Matcher)
    requires ValidMatcher(m)
    ensures MatchRecords(lines, m) == [] <==> forall i :: 0 <= i < |lines| ==> FindAll(m, lines[i]) == []
  {
    var r := MatchRecords(lines, m);
    if r != [] {
      assert FindAll(m, lines[r[0].lineNumber - 1]) != [];
    }
    forall i | 0 <= i < |lines| && FindAll(m, lines[i]) != [] ensures r != [] {
      MatchRecordsComplete(lines, m, i);
    }
  }

  /**
   * Literal records keep the match-record invariants, and each of their spans is an
   * occurrence of the pattern, `|pattern|` bytes long, with strictly increasing starts.
   */
  lemma LiteralRecordsValid(lines: seq<Text>, pattern: Text)
    requires pattern != []
    ensures forall j :: 0 <= j < |MatchRecords(lines, Literal(pattern))| ==>
      var rec := MatchRecords(lines, Literal(pattern))[j];
      && ValidMatchLine(rec)
      && Occurrences(rec.line, pattern, 0, rec.spans)
      && forall a, b :: 0 <= a < b < |rec.spans| ==> rec.spans[a].start < rec.spans[b].start
  {
    var r := MatchRecords(lines, Literal(pattern));
    forall j | 0 <= j < |r|
      ensures ValidMatchLine(r[j]) && Occurrences(r[j].line, pattern, 0, r[j].spans)
      ensures forall a, b :: 0 <= a < b < |r[j].spans| ==> r[j].spans[a].start < r[j].spans[b].start
    {
      ScanSound(r[j].line, pattern, 0);
    }
  }

  /** The spans an engine is trusted to return for a line: in bounds, left to right. */
  predicate EngineSpans(line: Text, spans: seq<Span>) {
    (forall i :: 0 <= i < |spans| ==> InBounds(line, spans[i])) && LeftToRight(spans)
  }

  /** Regex records keep the match-record invariants whenever the engine does. */
  lemma RegexRecordsValid(lines: seq<Text>, findIter: Text -> seq<Span>)
    requires forall i :: 0 <= i < |lines| ==> EngineSpans(lines[i], findIter(lines[i]))
    ensures forall j :: 0 <= j < |MatchRecords(lines, Pattern(findIter))| ==>
      ValidMatchLine(MatchRecords(lines, Pattern(findIter))[j])
  {
    var r := MatchRecords(lines, Pattern(findIter));
    forall j | 0 <= j < |r| ensures ValidMatchLine(r[j]) {
      assert EngineSpans(lines[r[j].lineNumber - 1], findIter(lines[r[j].lineNumber - 1]));
    }
  }

  /** `"alpha\nbeta\nalp"` searched for `"alp"`: lines 1 and 3, each with the span `0..3`. */
  lemma LiteralSearchExample()
    ensures MatchRecords(Lines([97, 108, 112, 104, 97, 10, 98, 101, 116, 97, 10, 97, 108, 112]), Literal([97, 108, 112]))
      == [MatchLine(1, [97, 108, 112, 104, 97], [Span(0, 3)]), MatchLine(3, [97, 108, 112], [Span(0, 3)])]
  {
    var alpha: Text := [97, 108, 112, 104, 97];
    var beta: Text := [98, 101, 116, 97];
    var alp: Text := [97, 108, 112];
    assert [97, 108, 112, 104, 97, 10, 98, 101, 116, 97, 10, 97, 108, 112] == alpha + [LF] + beta + [LF] + alp;
    LinesOfThree(alpha, beta, alp);
    ExampleScans(alpha, beta, alp);
    RecordsOfThree(alpha, beta, alp, Literal(alp));
  }

  /** Three lines of which the first and the last match. */
  lemma RecordsOfThree(a: Text, b: Text, c: Text, m: Matcher)
    requires ValidMatcher(m)
    requires FindAll(m, a) != [] && FindAll(m, b) == [] && FindAll(m, c) != []
    ensures MatchRecords([a, b, c], m) == [MatchLine(1, a, FindAll(m, a)), MatchLine(3, c, FindAll(m, c))]
  {
    assert [] + [a] == [a] && [a] + [b] == [a, b] && [a, b] + [c] == [a, b, c];
    var first := [MatchLine(1, a, FindAll(m, a))];
    var last := MatchLine(3, c, FindAll(m, c));
    MatchRecordsSnoc([], a, m);
    assert MatchRecords([a], m) == [] + first == first;
    MatchRecordsSnoc([a], b, m);
    assert MatchRecords([a, b], m) == first + [] == first;
    MatchRecordsSnoc([a, b], c, m);
    assert MatchRecords([a, b, c], m) == first + [last];
  }

  /** The records of one more line at the end. */
  lemma MatchRecordsSnoc(lines: seq<Text>, line: Text, m: Matcher)
    requires ValidMatcher(m)
    ensures MatchRecords(lines + [line], m)
         == MatchRecords(lines, m)
            + (if FindAll(m, line) != [] then [MatchLine(|lines| + 1, line, FindAll(m, line))] else [])
  {
    assert (lines + [line])[..|lines|] == lines;
  }

  /** Three lines joined by line feeds split back into those three lines. */
  lemma LinesOfThree(a: Text, b: Text, c: Text)
    requires Terminable(a, false) && Terminable(b, false)
    requires c != [] && LF !in c
    ensures Lines(a + [LF] + b + [LF] + c) == [a, b, c]
  {
    assert [a, b][1..] == [b] && [b][1..] == [];
    assert Terminator(false) == [LF];
    assert Terminated([b], false) == b + [LF] + Terminated([], false);
    assert Terminated([a, b], false) == a + [LF] + Terminated([b], false);
    assert a + [LF] + b + [LF] + c == Terminated([a, b], false) + c;
    LinesOfTerminated([a, b], false, c);
    UnterminatedLine(c);
  }

  lemma ExampleScans(alpha: Text, beta: Text, alp: Text)
    requires alpha == [97, 108, 112, 104, 97] && beta == [98, 101, 116, 97] && alp == [97, 108, 112]
    ensures ScanFrom(alpha, alp, 0) == [Span(0, 3)]
    ensures ScanFrom(beta, alp, 0) == []
    ensures ScanFrom(alp, alp, 0) == [Span(0, 3)]
  {
    assert alpha[0..] == alpha && Find(alpha, alp) == Some(0);
    assert alpha[3..] == [104, 97];
    assert beta[0..] == beta && beta[1..] == [101, 116, 97] && beta[1..][1..] == [116, 97];
    assert beta[..3][0] != alp[0] && beta[1..][..3][0] != alp[0];
    assert Find(beta, alp) == None;
    assert alp[0..] == alp && Find(alp, alp) == Some(0);
  }

  /**
   * `"Alpha\nbeta\nALP"` searched with `"alp"` and `ignore_case`: the compiler is handed
   * `"(?i)alp"`, and an engine that matches the first and last lines (and not the
   * middle one) yields records for lines 1 and 3.
   */
  lemma RegexSearchExample(f: Text -> seq<Span>)
    requires f([65, 108, 112, 104, 97]) != [] && f([98, 101, 116, 97]) == [] && f([65, 76, 80]) != []
    ensures FullPattern([97, 108, 112], true) == [40, 63, 105, 41, 97, 108, 112]
    ensures var r := MatchRecords(Lines([65, 108, 112, 104, 97, 10, 98, 101, 116, 97, 10, 65, 76, 80]), Pattern(f));
      |r| == 2 && r[0].lineNumber == 1 && r[1].lineNumber == 3
  {
    var alpha: Text := [65, 108, 112, 104, 97];
    var beta: Text := [98, 101, 116, 97];
    var alp: Text := [65, 76, 80];
    assert [65, 108, 112, 104, 97, 10, 98, 101, 116, 97, 10, 65, 76, 80] == alpha + [LF] + beta + [LF] + alp;
    LinesOfThree(alpha, beta, alp);
    RecordsOfThree(alpha, beta, alp, Pattern(f));
  }

  /** Literal search is case-sensitive: `"alpha"` is not found in `"Alpha"`. */
  lemma LiteralIsCaseSensitive()
    ensures ScanFrom([65, 108, 112, 104, 97], [97, 108, 112, 104, 97], 0) == []
  {
    var line: Text := [65, 108, 112, 104, 97];
    var p: Text := [97, 108, 112, 104, 97];
    assert line[0..] == line;
    FindLeftmost(line, p);
    assert line[0..5][0] != p[0];
  }

  /** `"(?i)"`, the inline flag that makes the regex case-insensitive. */
  const CaseInsensitiveFlag: Text := [40, 63, 105, 41]

  /** The pattern handed to the regex compiler. */
  function FullPattern(pattern: Text, ignoreCase: bool): Text {
    if ignoreCase then CaseInsensitiveFlag + pattern else pattern
  }

  /** What the regex compiler returns: a compiled matcher or its diagnostic. */
  datatype Compiled = Compiled(findIter: Text -> seq<Span>) | CompileError(diagnostic: string)

  /**
   * The cursor loop of `search_literal` over one line: every non-overlapping
   * occurrence, each search resuming at the previous hit's end.
   */
  method ScanLine(line: Text, pattern: Text) returns (spans: seq<Span>)
    requires pattern != []
    ensures spans == ScanFrom(line, pattern, 0)
  {
    spans := [];
    var offset: nat := 0;
    ghost var total := ScanFrom(line, pattern, 0);
    assert [] + total == total;
    while true
      invariant offset <= |line|
      invariant spans + ScanFrom(line, pattern, offset) == total
      decreases |line| - offset
    {
      var found := Find(line[offset..], pattern);
      ScanStep(line, pattern, offset, found);
      if found.None? {
        AppendNil(spans, ScanFrom(line, pattern, offset), total);
        break;
      }
      var start := offset + found.value;
      var end := start + |pattern|;
      if end >= |line| {
        ScanLast(spans, Span(start, end), ScanFrom(line, pattern, offset), total);
        spans := spans + [Span(start, end)];
        break;
      }
      ScanMore(spans, Span(start, end), ScanFrom(line, pattern, end), ScanFrom(line, pattern, offset), total);
      spans := spans + [Span(start, end)];
      offset := end;
    }
  }

  lemma AppendNil<T>(xs: seq<T>, ys: seq<T>, total: seq<T>)
    requires xs + ys == total && ys == []
    ensures xs == total
  {
    assert xs + [] == xs;
  }

  lemma ScanLast<T>(xs: seq<T>, x: T, ys: seq<T>, total: seq<T>)
    requires xs + ys == total && ys == [x]
    ensures xs + [x] == total
  {
  }

  lemma ScanMore<T>(xs: seq<T>, x: T, rest: seq<T>, ys: seq<T>, total: seq<T>)
    requires xs + ys == total && ys == [x] + rest
    ensures (xs + [x]) + rest == total
  {
    Associative(xs, [x], rest);
  }

  /** `search_literal`. */
  method SearchLiteral(input: Text, pattern: Text) returns (r: Result<seq<MatchLine>>)
    ensures pattern == [] ==> r == Err(EmptyPattern)
    ensures pattern != [] ==> r == Ok(MatchRecords(Lines(input), Literal(pattern)))
  {
    if pattern == [] {
      return Err(EmptyPattern);
    }
    var lines := Lines(input);
    var matches: seq<MatchLine> := [];
    for index := 0 to |lines|
      invariant matches == MatchRecords(lines[..index], Literal(pattern))
    {
      var line := lines[index];
      MatchRecordsStep(lines, Literal(pattern), index);
      ContainsIffScan(line, pattern);
      if Contains(line, pattern) {
        var spans := ScanLine(line, pattern);
        matches := matches + [MatchLine(index + 1, line, spans)];
      }
    }
    assert lines[..|lines|] == lines;
    return Ok(matches);
  }

  /** The inner loop of `search_regex`: every match of `find_iter` pushed as a span, in order. */
  method CollectSpans(findIter: Text -> seq<Span>, line: Text) returns (spans: seq<Span>)
    ensures spans == findIter(line)
  {
    var found := findIter(line);
    spans := [];
    for j := 0 to |found|
      invariant spans == found[..j]
    {
      spans := spans + [found[j]];
    }
    assert found[..|found|] == found;
  }

  /** `search_regex`, over the regex compiler `compile`. */
  method SearchRegex(input: Text, pattern: Text, ignoreCase: bool, compile: Text -> Compiled)
    returns (r: Result<seq<MatchLine>>)
    ensures pattern == [] ==> r == Err(EmptyPattern)
    ensures pattern != [] && compile(FullPattern(pattern, ignoreCase)).CompileError? ==>
      r == Err(Regex(compile(FullPattern(pattern, ignoreCase)).diagnostic))
    ensures pattern != [] && compile(FullPattern(pattern, ignoreCase)).Compiled? ==>
      r == Ok(MatchRecords(Lines(input), Pattern(compile(FullPattern(pattern, ignoreCase)).findIter)))
  {
    if pattern == [] {
      return Err(EmptyPattern);
    }
    var fullPattern := if ignoreCase then CaseInsensitiveFlag + pattern else pattern;
    var compiled := compile(fullPattern);
    if compiled.CompileError? {
      return Err(Regex(compiled.diagnostic));
    }
    var regex := compiled.findIter;
    var lines := Lines(input);
    var matches: seq<MatchLine> := [];
    for index := 0 to |lines|
      invariant matches == MatchRecords(lines[..index], Pattern(regex))
    {
      var line := lines[index];
      MatchRecordsStep(lines, Pattern(regex), index);
      var spans := CollectSpans(regex, line);
      if spans != [] {
        matches := matches + [MatchLine(index + 1, line, spans)];
      }
    }
    assert lines[..|lines|] == lines;
    return Ok(matches);
  }
}
