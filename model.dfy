/** The data model shared by search and rendering: bytes, spans and match records. */
module Model {

  /** One byte of UTF-8 text. */
  newtype byte = x: int | 0 <= x < 256

  /** A `&str` seen as its bytes; every offset in the core is a byte offset. */
  type Text = seq<byte>

  /** A half-open byte range `start..end` (Rust's `Range<usize>`). */
  datatype Span = Span(start: nat, end: nat)

  /** One input line that holds at least one match. */
  datatype MatchLine = MatchLine(lineNumber: nat, line: Text, spans: seq<Span>)

  /** `0 <= start <= end <= |line|`. */
  predicate InBounds(line: Text, s: Span) {
    s.start <= s.end <= |line|
  }

  /** Spans run left to right and do not overlap. */
  predicate LeftToRight(spans: seq<Span>) {
    forall i, j :: 0 <= i < j < |spans| ==> spans[i].end <= spans[j].start
  }

  /** The invariants a match record is meant to keep. */
  predicate ValidMatchLine(m: MatchLine) {
    && m.lineNumber >= 1
    && m.spans != []
    && (forall i :: 0 <= i < |m.spans| ==> InBounds(m.line, m.spans[i]))
    && LeftToRight(m.spans)
  }
}
