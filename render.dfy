/**
 * `highlight_line`: copies a line and wraps each listed span in emphasis.
 *
 * The output is modelled twice: as the bytes the function builds, and as the list of
 * segments (verbatim text or emphasized text) those bytes are made of. Properties that
 * are about what the line becomes (stripping emphasis gives the line back) are stated
 * on the segments; the method is tied to both.
 */
module Render {
  import opened Model
  import opened Str
  import opened Errors

  /** The escape sequence that starts bold yellow text: `ESC[1m ESC[33m`. */
  const EmphOpen: Text := [27, 91, 49, 109, 27, 91, 51, 51, 109]

  /** The escape sequence that ends it: `ESC[39m ESC[0m`. */
  const EmphClose: Text := [27, 91, 51, 57, 109, 27, 91, 48, 109]

  /** The segment wrapped in bold yellow emphasis. */
  function Emph(s: Text): (r: Text)
    ensures |r| == |EmphOpen| + |s| + |EmphClose|
    ensures r[..|EmphOpen|] == EmphOpen && r[|EmphOpen|..|EmphOpen| + |s|] == s
    ensures r[|EmphOpen| + |s|..] == EmphClose
  {
    EmphOpen + s + EmphClose
  }

  /** One piece of the output: text copied as it is, or text wrapped in emphasis. */
  datatype Segment = Plain(text: Text) | Emphasized(text: Text)

  function RenderSegment(g: Segment): Text {
    match g
    case Plain(t) => t
    case Emphasized(t) => Emph(t)
  }

  /** The bytes a list of segments stands for. */
  function Output(segs: seq<Segment>): Text {
    if segs == [] then [] else RenderSegment(segs[0]) + Output(segs[1..])
  }

  /** The segments' texts with the emphasis removed. */
  function Strip(segs: seq<Segment>): Text {
    if segs == [] then [] else segs[0].text + Strip(segs[1..])
  }

  /** The texts of the emphasized segments, in order. */
  function EmphasizedTexts(segs: seq<Segment>): seq<Text> {
    if segs == [] then []
    else (if segs[0].Emphasized? then [segs[0].text] else []) + EmphasizedTexts(segs[1..])
  }

  lemma {:induction false} OutputConcat(a: seq<Segment>, b: seq<Segment>)
    ensures Output(a + b) == Output(a) + Output(b)
  {
    if a != [] {
      assert (a + b)[1..] == a[1..] + b;
      OutputConcat(a[1..], b);
    } else {
      assert a + b == b;
    }
  }

  lemma {:induction false} StripConcat(a: seq<Segment>, b: seq<Segment>)
    ensures Strip(a + b) == Strip(a) + Strip(b)
  {
    if a != [] {
      assert (a + b)[1..] == a[1..] + b;
      StripConcat(a[1..], b);
    } else {
      assert a + b == b;
    }
  }

  lemma {:induction false} EmphasizedConcat(a: seq<Segment>, b: seq<Segment>)
    ensures EmphasizedTexts(a + b) == EmphasizedTexts(a) + EmphasizedTexts(b)
  {
    if a != [] {
      assert (a + b)[1..] == a[1..] + b;
      EmphasizedConcat(a[1..], b);
    } else {
      assert a + b == b;
    }
  }

  /** `done` in front of a successful result; an error stays as it is. */
  function Prepend(done: seq<Segment>, r: Result<seq<Segment>>): Result<seq<Segment>> {
    if r.Err? then r else Ok(done + r.value)
  }

  /** The gap before a span: nothing when the cursor is not before it. */
  function Gap(line: Text, cursor: nat, start: nat): Result<seq<Segment>> {
    if cursor < start then
      var g := Get(line, cursor, start);
      if g.None? then Err(InvalidSpan) else Ok([Plain(g.value)])
    else Ok([])
  }

  /** What is left after the last span: nothing when the cursor is at the end. */
  function Tail(line: Text, cursor: nat): Result<seq<Segment>> {
    if cursor < |line| then
      var t := GetFrom(line, cursor);
      if t.None? then Err(InvalidSpan) else Ok([Plain(t.value)])
    else Ok([])
  }

  /** The loop of `highlight_line` over `spans`, resumed with its cursor at `cursor`. */
  function SegmentsFrom(line: Text, spans: seq<Span>, cursor: nat): Result<seq<Segment>>
    decreases |spans|
  {
    if spans == [] then Tail(line, cursor)
    else
      var s := spans[0];
      if s.start > s.end || s.end > |line| then Err(InvalidSpan)
      else
        var gap := Gap(line, cursor, s.start);
        if gap.Err? then Err(InvalidSpan)
        else
          var seg := Get(line, s.start, s.end);
          if seg.None? then Err(InvalidSpan)
          else Prepend(gap.value + [Emphasized(seg.value)], SegmentsFrom(line, spans[1..], s.end))
  }

  /** The segments `highlight_line` builds; no spans leave the line as one plain piece. */
  function HighlightSegments(line: Text, spans: seq<Span>): Result<seq<Segment>> {
    if spans == [] then Ok([Plain(line)]) else SegmentsFrom(line, spans, 0)
  }

  /** The result of `highlight_line`. */
  function Highlighted(line: Text, spans: seq<Span>): Result<Text> {
    var segs := HighlightSegments(line, spans);
    if segs.Err? then Err(segs.error) else Ok(Output(segs.value))
  }

  /** A span the highlighter accepts: in bounds, and both ends on character boundaries. */
  predicate ValidSpan(line: Text, s: Span) {
    s.start <= s.end <= |line| && IsCharBoundary(line, s.start) && IsCharBoundary(line, s.end)
  }

  /**
   * The loop succeeds exactly when every remaining span is valid, and its only error
   * is `InvalidSpan`: the gap and tail slices start where a checked span ended, so
   * they never fail on their own.
   */
  lemma {:induction false} SegmentsOkIff(line: Text, spans: seq<Span>, cursor: nat)
    requires IsCharBoundary(line, cursor)
    ensures SegmentsFrom(line, spans, cursor).Ok? <==> forall i :: 0 <= i < |spans| ==> ValidSpan(line, spans[i])
    ensures SegmentsFrom(line, spans, cursor).Err? ==> SegmentsFrom(line, spans, cursor).error == InvalidSpan
    decreases |spans|
  {
    if spans != [] {
      var s := spans[0];
      if ValidSpan(line, s) {
        SegmentsOkIff(line, spans[1..], s.end);
        forall i | 1 <= i < |spans| ensures spans[i] == spans[1..][i - 1] {
        }
        assert Gap(line, cursor, s.start).Ok?;
      }
    }
  }

  /**
   * `highlight_line` succeeds exactly when every span is in bounds and falls on
   * character boundaries, whatever their order; otherwise it returns `InvalidSpan`
   * and no partial output.
   */
  lemma HighlightOkIff(line: Text, spans: seq<Span>)
    ensures Highlighted(line, spans).Ok? <==> forall i :: 0 <= i < |spans| ==> ValidSpan(line, spans[i])
    ensures Highlighted(line, spans).Err? ==> Highlighted(line, spans) == Err(InvalidSpan)
  {
    if spans != [] {
      SegmentsOkIff(line, spans, 0);
    }
  }

  /** With no spans the line comes back unchanged. */
  lemma HighlightIdentity(line: Text)
    ensures Highlighted(line, []) == Ok(line)
  {
    assert [Plain(line)][1..] == [];
    assert RenderSegment(Plain(line)) == line;
    assert Output([Plain(line)]) == line + Output([]) == line;
  }

  /** The spans after the first still run left to right, and none starts before the first ends. */
  lemma LeftToRightTail(spans: seq<Span>)
    requires spans != [] && LeftToRight(spans)
    ensures LeftToRight(spans[1..])
    ensures forall i :: 0 <= i < |spans[1..]| ==> spans[0].end <= spans[1..][i].start
  {
    forall i | 0 <= i < |spans[1..]| ensures spans[0].end <= spans[1..][i].start {
      assert spans[1..][i] == spans[i + 1];
    }
    forall i, j | 0 <= i < j < |spans[1..]| ensures spans[1..][i].end <= spans[1..][j].start {
      assert spans[1..][i] == spans[i + 1] && spans[1..][j] == spans[j + 1];
    }
  }

  /** One span's gap and text, stripped, followed by the stripped rest. */
  lemma StripStep(line: Text, cursor: nat, s: Span, rest: seq<Segment>)
    requires cursor <= s.start <= s.end <= |line|
    requires Gap(line, cursor, s.start).Ok?
    requires Strip(rest) == line[s.end..]
    ensures Strip(Gap(line, cursor, s.start).value + [Emphasized(line[s.start..s.end])] + rest) == line[cursor..]
  {
    var gap := Gap(line, cursor, s.start).value;
    var seg := line[s.start..s.end];
    StripConcat(gap + [Emphasized(seg)], rest);
    StripConcat(gap, [Emphasized(seg)]);
    StripOne(Emphasized(seg));
    StripGap(line, cursor, s.start);
    SliceThree(line, cursor, s.start, s.end);
  }

  lemma StripOne(seg: Segment)
    ensures Strip([seg]) == seg.text
  {
    assert [seg][1..] == [];
    assert seg.text + [] == seg.text;
  }

  /** A gap without its emphasis is the slice of the line it covers. */
  lemma StripGap(line: Text, cursor: nat, start: nat)
    requires cursor <= start <= |line| && Gap(line, cursor, start).Ok?
    ensures Strip(Gap(line, cursor, start).value) == line[cursor..start]
  {
    if cursor < start {
      StripOne(Plain(line[cursor..start]));
    }
  }

  lemma SliceThree<T>(xs: seq<T>, a: nat, b: nat, c: nat)
    requires a <= b <= c <= |xs|
    ensures xs[a..] == xs[a..b] + xs[b..c] + xs[c..]
  {
  }

  /**
   * With spans in order and not overlapping, stripping the emphasis from the segments
   * gives back the line from `cursor` on.
   */
  lemma {:induction false} SegmentsStrip(line: Text, spans: seq<Span>, cursor: nat)
    requires cursor <= |line|
    requires SegmentsFrom(line, spans, cursor).Ok?
    requires LeftToRight(spans)
    requires forall i :: 0 <= i < |spans| ==> cursor <= spans[i].start
    ensures Strip(SegmentsFrom(line, spans, cursor).value) == line[cursor..]
    decreases |spans|
  {
    if spans == [] {
      if cursor < |line| {
        assert [Plain(line[cursor..])][1..] == [];
        assert Strip([Plain(line[cursor..])]) == line[cursor..] + Strip([]);
      }
    } else {
      var s := spans[0];
      LeftToRightTail(spans);
      SegmentsStrip(line, spans[1..], s.end);
      StripStep(line, cursor, s, SegmentsFrom(line, spans[1..], s.end).value);
    }
  }

  /**
   * Stripping emphasis from a highlighted line gives the line back, when its spans run
   * left to right without overlap.
   */
  lemma HighlightStrip(line: Text, spans: seq<Span>)
    requires HighlightSegments(line, spans).Ok?
    requires LeftToRight(spans)
    ensures Strip(HighlightSegments(line, spans).value) == line
  {
    if spans == [] {
      assert [Plain(line)][1..] == [];
      assert Strip([Plain(line)]) == line + Strip([]);
    } else {
      SegmentsStrip(line, spans, 0);
    }
  }

  /** The text of each span, in the order of the spans. */
  function Slices(line: Text, spans: seq<Span>): (r: seq<Text>)
    requires forall i :: 0 <= i < |spans| ==> spans[i].start <= spans[i].end <= |line|
    ensures |r| == |spans|
    ensures forall i :: 0 <= i < |spans| ==> r[i] == line[spans[i].start..spans[i].end]
  {
    if spans == [] then []
    else [line[spans[0].start..spans[0].end]] + Slices(line, spans[1..])
  }

  /**
   * Every span, in order and whatever its overlap with the others, becomes one
   * emphasized segment holding exactly the span's text.
   */
  lemma {:induction false} SegmentsEmphasized(line: Text, spans: seq<Span>, cursor: nat)
    requires SegmentsFrom(line, spans, cursor).Ok?
    ensures forall i :: 0 <= i < |spans| ==> spans[i].start <= spans[i].end <= |line|
    ensures EmphasizedTexts(SegmentsFrom(line, spans, cursor).value) == Slices(line, spans)
    decreases |spans|
  {
    if spans == [] {
      var t := Tail(line, cursor).value;
      assert EmphasizedTexts(t) == [] by {
        if t != [] {
          assert t == [Plain(t[0].text)];
          assert EmphasizedTexts(t) == [] + EmphasizedTexts([]);
        }
      }
    } else {
      var s := spans[0];
      var gap := Gap(line, cursor, s.start).value;
      var seg := line[s.start..s.end];
      var rest := SegmentsFrom(line, spans[1..], s.end);
      SegmentsEmphasized(line, spans[1..], s.end);
      forall i | 1 <= i < |spans| ensures spans[i].start <= spans[i].end <= |line| {
        assert spans[i] == spans[1..][i - 1];
      }
      EmphasizedConcat(gap + [Emphasized(seg)], rest.value);
      EmphasizedConcat(gap, [Emphasized(seg)]);
      assert EmphasizedTexts([Emphasized(seg)]) == [seg] + EmphasizedTexts([]);
      assert EmphasizedTexts(gap) == [] by {
        if gap != [] {
          assert gap == [Plain(gap[0].text)];
          assert EmphasizedTexts(gap) == [] + EmphasizedTexts([]);
        }
      }
    }
  }

  /** The highlighted line emphasizes exactly the spans' texts, one per span, in order. */
  lemma HighlightEmphasized(line: Text, spans: seq<Span>)
    requires HighlightSegments(line, spans).Ok?
    ensures forall i :: 0 <= i < |spans| ==> spans[i].start <= spans[i].end <= |line|
    ensures EmphasizedTexts(HighlightSegments(line, spans).value) == Slices(line, spans)
  {
    if spans == [] {
      assert EmphasizedTexts([Plain(line)]) == [] + EmphasizedTexts([]);
    } else {
      SegmentsEmphasized(line, spans, 0);
    }
  }

  /**
   * Order and overlap are not checked: for `"abc"`, the spans `0..2` and `1..3` are
   * both emphasized, with no gap between, and the second span's text is repeated.
   */
  lemma OverlapAccepted()
    ensures Highlighted([97, 98, 99], [Span(0, 2), Span(1, 3)]) == Ok(Emph([97, 98]) + Emph([98, 99]))
  {
    var line: Text := [97, 98, 99];
    assert [Span(0, 2), Span(1, 3)][1..] == [Span(1, 3)];
    assert SegmentsFrom(line, [Span(1, 3)], 2) == Ok([Emphasized([98, 99])]) by {
      assert line[1..3] == [98, 99];
      assert [Span(1, 3)][1..] == [];
      assert SegmentsFrom(line, [], 3) == Ok([]);
      assert Gap(line, 2, 1) == Ok([]);
      assert ([] + [Emphasized([98, 99])]) + [] == [Emphasized([98, 99])];
    }
    assert line[0..2] == [97, 98];
    assert Gap(line, 0, 0) == Ok([]);
    var segs := [Emphasized([97, 98]), Emphasized([98, 99])];
    assert ([] + [Emphasized([97, 98])]) + [Emphasized([98, 99])] == segs;
    assert SegmentsFrom(line, [Span(0, 2), Span(1, 3)], 0) == Ok(segs);
    assert segs[1..] == [Emphasized([98, 99])] && segs[1..][1..] == [];
    assert Output(segs) == Emph([97, 98]) + Output(segs[1..]);
    assert Output(segs[1..]) == Emph([98, 99]) + Output([]) == Emph([98, 99]);
  }

  /** The segments of the unit test: `"alpha beta"` with spans `0..5` and `6..7`. */
  lemma AlphaBetaSegments()
    ensures HighlightSegments([97, 108, 112, 104, 97, 32, 98, 101, 116, 97], [Span(0, 5), Span(6, 7)])
         == Ok([Emphasized([97, 108, 112, 104, 97]), Plain([32]), Emphasized([98]), Plain([101, 116, 97])])
  {
    var line: Text := [97, 108, 112, 104, 97, 32, 98, 101, 116, 97];
    assert [Span(0, 5), Span(6, 7)][1..] == [Span(6, 7)];
    assert [Span(6, 7)][1..] == [];
    assert SegmentsFrom(line, [], 7) == Ok([Plain([101, 116, 97])]) by {
      assert line[7..] == [101, 116, 97];
    }
    assert SegmentsFrom(line, [Span(6, 7)], 5) == Ok([Plain([32]), Emphasized([98]), Plain([101, 116, 97])]) by {
      assert line[5..6] == [32] && line[6..7] == [98];
      assert Gap(line, 5, 6) == Ok([Plain([32])]);
      assert ([Plain([32])] + [Emphasized([98])]) + [Plain([101, 116, 97])] == [Plain([32]), Emphasized([98]), Plain([101, 116, 97])];
    }
    assert line[0..5] == [97, 108, 112, 104, 97];
    assert Gap(line, 0, 0) == Ok([]);
    assert ([] + [Emphasized([97, 108, 112, 104, 97])]) + [Plain([32]), Emphasized([98]), Plain([101, 116, 97])]
        == [Emphasized([97, 108, 112, 104, 97]), Plain([32]), Emphasized([98]), Plain([101, 116, 97])];
  }

  /** The unit test: the highlighted `"alpha beta"` holds an escape sequence `ESC[`. */
  lemma HighlightsWithColors()
    ensures Highlighted([97, 108, 112, 104, 97, 32, 98, 101, 116, 97], [Span(0, 5), Span(6, 7)]).Ok?
    ensures Contains(Highlighted([97, 108, 112, 104, 97, 32, 98, 101, 116, 97], [Span(0, 5), Span(6, 7)]).value, [27, 91])
  {
    AlphaBetaSegments();
    var segs := [Emphasized([97, 108, 112, 104, 97]), Plain([32]), Emphasized([98]), Plain([101, 116, 97])];
    var out := Output(segs);
    assert out == Emph([97, 108, 112, 104, 97]) + Output(segs[1..]);
    assert out[..2] == [27, 91];
    ContainsIff(out, [27, 91]);
    assert Occurs(out, [27, 91], 0);
  }

  /** Segments without line feeds render to bytes without line feeds: the escape sequences hold none. */
  lemma {:induction false} OutputNoLF(segs: seq<Segment>)
    requires forall j :: 0 <= j < |segs| ==> LF !in segs[j].text
    ensures LF !in Output(segs)
    decreases |segs|
  {
    if segs != [] {
      OutputNoLF(segs[1..]);
      assert LF !in EmphOpen && LF !in EmphClose;
      assert LF !in RenderSegment(segs[0]);
    }
  }

  /** Every byte of a segment the highlighter cuts comes from the line. */
  lemma {:induction false} SegmentsFromLine(line: Text, spans: seq<Span>, cursor: nat)
    requires SegmentsFrom(line, spans, cursor).Ok?
    ensures forall j :: 0 <= j < |SegmentsFrom(line, spans, cursor).value| ==>
      multiset(SegmentsFrom(line, spans, cursor).value[j].text) <= multiset(line)
    decreases |spans|
  {
    if spans == [] {
      if cursor < |line| {
        SliceWithin(line, cursor, |line|);
        assert line[cursor..|line|] == line[cursor..];
      }
    } else {
      var s := spans[0];
      SegmentsFromLine(line, spans[1..], s.end);
      SliceWithin(line, s.start, s.end);
      if cursor < s.start {
        SliceWithin(line, cursor, s.start);
      }
    }
  }

  lemma SliceWithin(line: Text, a: nat, b: nat)
    requires a <= b <= |line|
    ensures multiset(line[a..b]) <= multiset(line)
  {
    assert line == line[..a] + line[a..b] + line[b..];
  }

  /** A line without line feeds highlights to bytes without line feeds. */
  lemma HighlightNoLF(line: Text, spans: seq<Span>)
    requires LF !in line && Highlighted(line, spans).Ok?
    ensures LF !in Highlighted(line, spans).value
  {
    var segs := HighlightSegments(line, spans).value;
    if spans != [] {
      SegmentsFromLine(line, spans, 0);
    }
    forall j | 0 <= j < |segs| ensures LF !in segs[j].text {
      if spans != [] {
        assert multiset(segs[j].text)[LF] <= multiset(line)[LF];
      }
    }
    OutputNoLF(segs);
  }

  /** The segments one span adds: its gap, if any, then its emphasized text. */
  function StepSegments(line: Text, cursor: nat, s: Span): seq<Segment>
    requires Gap(line, cursor, s.start).Ok? && Get(line, s.start, s.end).Some?
  {
    Gap(line, cursor, s.start).value + [Emphasized(Get(line, s.start, s.end).value)]
  }

  /** One turn of the loop of `highlight_line` at span `i`: its three failures, or its segments. */
  lemma SegmentsAt(line: Text, spans: seq<Span>, i: nat, cursor: nat)
    requires i < |spans|
    ensures spans[i].start > spans[i].end || spans[i].end > |line| ==>
      SegmentsFrom(line, spans[i..], cursor) == Err(InvalidSpan)
    ensures spans[i].start <= spans[i].end <= |line| && Gap(line, cursor, spans[i].start).Err? ==>
      SegmentsFrom(line, spans[i..], cursor) == Err(InvalidSpan)
    ensures (spans[i].start <= spans[i].end <= |line| && Gap(line, cursor, spans[i].start).Ok?
             && Get(line, spans[i].start, spans[i].end).None?) ==>
      SegmentsFrom(line, spans[i..], cursor) == Err(InvalidSpan)
    ensures (spans[i].start <= spans[i].end <= |line| && Gap(line, cursor, spans[i].start).Ok?
             && Get(line, spans[i].start, spans[i].end).Some?) ==>
      SegmentsFrom(line, spans[i..], cursor)
      == Prepend(StepSegments(line, cursor, spans[i]), SegmentsFrom(line, spans[i + 1..], spans[i].end))
  {
    assert spans[i..][0] == spans[i] && spans[i..][1..] == spans[i + 1..];
  }

  /** The bytes one span adds: the gap copied when the cursor is before the span, then the emphasized text. */
  lemma OutputStep(line: Text, cursor: nat, s: Span)
    requires Gap(line, cursor, s.start).Ok? && Get(line, s.start, s.end).Some?
    ensures cursor < s.start ==>
      Output(StepSegments(line, cursor, s)) == Get(line, cursor, s.start).value + Emph(Get(line, s.start, s.end).value)
    ensures cursor >= s.start ==> Output(StepSegments(line, cursor, s)) == Emph(Get(line, s.start, s.end).value)
  {
    var gap := Gap(line, cursor, s.start).value;
    var e := Emphasized(Get(line, s.start, s.end).value);
    OutputConcat(gap, [e]);
    assert [e][1..] == [];
    assert Output([e]) == Emph(e.text) + Output([]) == Emph(e.text);
    if cursor < s.start {
      assert gap[1..] == [];
      assert Output(gap) == gap[0].text + Output([]) == gap[0].text;
    } else {
      assert gap == [];
    }
  }

  lemma PrependPrepend(a: seq<Segment>, b: seq<Segment>, r: Result<seq<Segment>>)
    ensures Prepend(a, Prepend(b, r)) == Prepend(a + b, r)
  {
    if r.Ok? {
      assert a + (b + r.value) == (a + b) + r.value;
    }
  }

  /** `highlight_line`. */
  method HighlightLine(line: Text, spans: seq<Span>) returns (r: Result<Text>)
    ensures r == Highlighted(line, spans)
  {
    if spans == [] {
      HighlightIdentity(line);
      return Ok(line);
    }
    var output: Text := [];
    var cursor: nat := 0;
    ghost var done: seq<Segment> := [];
    assert SegmentsFrom(line, spans, 0).Ok? ==> [] + SegmentsFrom(line, spans, 0).value == SegmentsFrom(line, spans, 0).value;
    for i := 0 to |spans|
      invariant output == Output(done)
      invariant SegmentsFrom(line, spans, 0) == Prepend(done, SegmentsFrom(line, spans[i..], cursor))
    {
      var span := spans[i];
      SegmentsAt(line, spans, i, cursor);
      if span.start > span.end || span.end > |line| {
        return Err(InvalidSpan);
      }
      if cursor < span.start {
        var gap := Get(line, cursor, span.start);
        if gap.None? {
          return Err(InvalidSpan);
        }
        output := output + gap.value;
      }
      var segment := Get(line, span.start, span.end);
      if segment.None? {
        return Err(InvalidSpan);
      }
      if cursor < span.start {
        Associative(Output(done), Get(line, cursor, span.start).value, Emph(segment.value));
      }
      output := output + Emph(segment.value);
      ghost var step := StepSegments(line, cursor, span);
      OutputStep(line, cursor, span);
      OutputConcat(done, step);
      PrependPrepend(done, step, SegmentsFrom(line, spans[i + 1..], span.end));
      done := done + step;
      cursor := span.end;
    }
    assert SegmentsFrom(line, spans[|spans|..], cursor) == Tail(line, cursor);
    if cursor < |line| {
      var tail := GetFrom(line, cursor);
      if tail.None? {
        return Err(InvalidSpan);
      }
      OutputConcat(done, [Plain(tail.value)]);
      assert [Plain(tail.value)][1..] == [];
      assert Output([Plain(tail.value)]) == tail.value + Output([]) == tail.value;
      output := output + tail.value;
      done := done + [Plain(tail.value)];
    } else {
      assert done + [] == done;
    }
    return Ok(output);
  }
}
