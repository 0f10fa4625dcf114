/**
 * The operations of Rust's `str` that the core relies on, on the byte view of a string:
 * `find`, `contains`, `lines`, `is_char_boundary` and `get` on ranges.
 */
module Str {
  import opened Model

  datatype Option<+T> = None | Some(value: T)

  const LF: byte := 10
  const CR: byte := 13

  /** `p` occurs in `hay` at byte offset `k`. */
  predicate Occurs(hay: Text, p: Text, k: nat) {
    k + |p| <= |hay| && hay[k..k + |p|] == p
  }

  lemma OccursShift(hay: Text, p: Text, k: nat)
    requires |hay| > 0
    ensures Occurs(hay[1..], p, k) <==> Occurs(hay, p, k + 1)
  {
    if k + 1 + |p| <= |hay| {
      assert hay[1..][k..k + |p|] == hay[k + 1..k + 1 + |p|];
    }
  }

  /** `str::find`: the offset of the leftmost occurrence of `p`, if any. */
  function Find(hay: Text, p: Text): (r: Option<nat>)
    ensures r.Some? ==> r.value + |p| <= |hay|
    decreases |hay|
  {
    if |hay| < |p| then None
    else if hay[..|p|] == p then Some(0)
    else
      match Find(hay[1..], p)
      case None => None
      case Some(i) => Some(i + 1)
  }

  /** `Find` reports an occurrence, and no occurrence lies before it. */
  lemma {:induction false} FindLeftmost(hay: Text, p: Text)
    ensures Find(hay, p).Some? ==> Occurs(hay, p, Find(hay, p).value)
    ensures Find(hay, p).Some? ==> forall k: nat :: k < Find(hay, p).value ==> !Occurs(hay, p, k)
    ensures Find(hay, p).None? ==> forall k: nat :: !Occurs(hay, p, k)
    decreases |hay|
  {
    if |hay| >= |p| && hay[..|p|] != p {
      assert !Occurs(hay, p, 0);
      FindLeftmost(hay[1..], p);
      forall k: nat | k >= 1 ensures Occurs(hay, p, k) <==> Occurs(hay[1..], p, k - 1) {
        OccursShift(hay, p, k - 1);
      }
    }
  }

  /** An occurrence with none before it is the one `Find` reports. */
  lemma FindFirst(hay: Text, p: Text, k: nat)
    requires Occurs(hay, p, k) && forall j: nat :: j < k ==> !Occurs(hay, p, j)
    ensures Find(hay, p) == Some(k)
  {
    FindLeftmost(hay, p);
  }

  /** `str::contains`. */
  predicate Contains(hay: Text, p: Text) {
    Find(hay, p).Some?
  }

  lemma ContainsIff(hay: Text, p: Text)
    ensures Contains(hay, p) <==> exists k: nat :: Occurs(hay, p, k)
  {
    FindLeftmost(hay, p);
    if Contains(hay, p) {
      assert Occurs(hay, p, Find(hay, p).value);
    }
  }

  /** The offset of the first line feed in `s`, or `|s|` when there is none. */
  function LineEnd(s: Text): (k: nat)
    ensures k <= |s|
  {
    if s == [] || s[0] == LF then 0 else 1 + LineEnd(s[1..])
  }

  /** `LineEnd` stops at a line feed, and at the first one. */
  lemma {:induction false} LineEndFirst(s: Text)
    ensures LineEnd(s) < |s| ==> s[LineEnd(s)] == LF
    ensures forall j :: 0 <= j < LineEnd(s) ==> s[j] != LF
  {
    if s != [] && s[0] != LF {
      LineEndFirst(s[1..]);
      forall j | 0 <= j < LineEnd(s) ensures s[j] != LF {
        if j > 0 {
          assert s[j] == s[1..][j - 1];
        }
      }
    }
  }

  predicate EndsWithCR(t: Text) {
    |t| > 0 && t[|t| - 1] == CR
  }

  /** Removes one trailing carriage return. */
  function StripCR(t: Text): Text {
    if EndsWithCR(t) then t[..|t| - 1] else t
  }

  /**
   * `str::lines`: the pieces between line feeds, each with a trailing carriage return
   * removed when a line feed followed it; a final line feed ends the last line
   * rather than starting an empty one.
   */
  function Lines(s: Text): (ls: seq<Text>)
    decreases |s|
  {
    if s == [] then []
    else
      var k := LineEnd(s);
      if k == |s| then [s]
      else [StripCR(s[..k])] + Lines(s[k + 1..])
  }

  /** Each line followed by its terminator, `"\r\n"` when `crlf` and `"\n"` otherwise. */
  function Terminated(ls: seq<Text>, crlf: bool): Text {
    if ls == [] then []
    else ls[0] + Terminator(crlf) + Terminated(ls[1..], crlf)
  }

  /** The terminator `Terminated` puts after each line. */
  function Terminator(crlf: bool): Text {
    if crlf then [CR, LF] else [LF]
  }

  /**
   * `lines` undoes terminating lines: every terminated line comes back without its
   * terminator, and whatever follows is split on its own.
   */
  lemma {:induction false} LinesOfTerminated(ls: seq<Text>, crlf: bool, rest: Text)
    requires forall i :: 0 <= i < |ls| ==> Terminable(ls[i], crlf)
    ensures Lines(Terminated(ls, crlf) + rest) == ls + Lines(rest)
  {
    if ls != [] {
      LinesOfTerminated(ls[1..], crlf, rest);
      LinesOfTerminatedStep(ls, crlf, rest);
    } else {
      assert Terminated(ls, crlf) + rest == rest;
    }
  }

  /** The inductive step of `LinesOfTerminated`. */
  lemma LinesOfTerminatedStep(ls: seq<Text>, crlf: bool, rest: Text)
    requires ls != [] && Terminable(ls[0], crlf)
    requires Lines(Terminated(ls[1..], crlf) + rest) == ls[1..] + Lines(rest)
    ensures Lines(Terminated(ls, crlf) + rest) == ls + Lines(rest)
  {
    var tail := Terminated(ls[1..], crlf) + rest;
    TerminatedCons(ls, crlf, rest);
    LinesOfLine(ls[0], crlf, tail);
    ConsSplit(ls, Lines(rest));
  }

  lemma TerminatedCons(ls: seq<Text>, crlf: bool, rest: Text)
    requires ls != []
    ensures Terminated(ls, crlf) + rest == ls[0] + Terminator(crlf) + (Terminated(ls[1..], crlf) + rest)
  {
    Associative(ls[0] + Terminator(crlf), Terminated(ls[1..], crlf), rest);
  }

  lemma Snoc<T>(b: seq<T>)
    requires b != []
    ensures b == b[..|b| - 1] + [b[|b| - 1]]
  {
  }

  lemma Associative<T>(x: seq<T>, y: seq<T>, z: seq<T>)
    ensures x + (y + z) == (x + y) + z
  {
  }

  lemma ConsSplit<T>(xs: seq<T>, ys: seq<T>)
    requires xs != []
    ensures [xs[0]] + (xs[1..] + ys) == xs + ys
  {
    assert [xs[0]] + xs[1..] == xs;
  }

  /**
   * A line that comes back from `lines` once terminated: it holds no line feed, and
   * a bare `"\n"` after a trailing carriage return would make the two one terminator.
   */
  predicate Terminable(l: Text, crlf: bool) {
    LF !in l && (!crlf ==> !EndsWithCR(l))
  }

  /** One terminated line in front of any text. */
  lemma LinesOfLine(l: Text, crlf: bool, tail: Text)
    requires Terminable(l, crlf)
    ensures Lines(l + Terminator(crlf) + tail) == [l] + Lines(tail)
  {
    var term := Terminator(crlf);
    var s := l + term + tail;
    var k := |l| + |term| - 1;
    forall j | 0 <= j < k ensures s[j] != LF {
      if j < |l| {
        assert s[j] == l[j];
      } else {
        assert s[j] == CR;
      }
    }
    LineEndAt(s, k);
    if crlf {
      assert s[..k] == l + [CR];
      assert (l + [CR])[..|l|] == l;
    } else {
      assert s[..k] == l;
    }
    assert StripCR(s[..k]) == l;
    assert s[k + 1..] == tail;
    assert Lines(s) == [StripCR(s[..k])] + Lines(s[k + 1..]);
  }

  /** `LineEnd` is the first line feed. */
  lemma LineEndAt(s: Text, k: nat)
    requires k < |s| && s[k] == LF
    requires forall j :: 0 <= j < k ==> s[j] != LF
    ensures LineEnd(s) == k
  {
    LineEndFirst(s);
  }

  /** A text without line feed runs to its end. */
  lemma LineEndNone(s: Text)
    requires LF !in s
    ensures LineEnd(s) == |s|
  {
    LineEndFirst(s);
  }

  /** A last line without terminator comes back as it is. */
  lemma UnterminatedLine(t: Text)
    requires t != [] && LF !in t
    ensures Lines(t) == [t]
  {
    LineEndNone(t);
  }

  /** No line holds a line feed. */
  lemma {:induction false} LinesHaveNoLF(s: Text)
    ensures forall i :: 0 <= i < |Lines(s)| ==> LF !in Lines(s)[i]
    decreases |s|
  {
    if s != [] {
      var k := LineEnd(s);
      LineEndFirst(s);
      if k == |s| {
        assert LF !in s;
      } else {
        LinesHaveNoLF(s[k + 1..]);
        var first := StripCR(s[..k]);
        assert first == s[..|first|];
        assert LF !in first;
        assert forall i :: 1 <= i < |Lines(s)| ==> Lines(s)[i] == Lines(s[k + 1..])[i - 1];
      }
    }
  }

  /** Every byte of every line is a byte of the text it was split from. */
  lemma {:induction false} LinesWithin(s: Text)
    ensures forall i, x :: 0 <= i < |Lines(s)| && x in Lines(s)[i] ==> x in s
    decreases |s|
  {
    if s != [] {
      var k := LineEnd(s);
      if k < |s| {
        var rest := s[k + 1..];
        LinesWithin(rest);
        var first := StripCR(s[..k]);
        assert first == s[..|first|];
        forall i, x | 0 <= i < |Lines(s)| && x in Lines(s)[i] ensures x in s {
          if i == 0 {
            var j :| 0 <= j < |first| && first[j] == x;
            assert s[j] == x;
          } else {
            assert Lines(s)[i] == Lines(rest)[i - 1];
            assert x in rest;
            var j :| 0 <= j < |rest| && rest[j] == x;
            assert s[k + 1 + j] == x;
          }
        }
      }
    }
  }

  /** A byte that continues a multi-byte UTF-8 sequence (`0b10xxxxxx`). */
  predicate IsContinuation(b: byte) {
    128 <= b < 192
  }

  /** `str::is_char_boundary`: 0, the length, or an offset not inside a character. */
  predicate IsCharBoundary(s: Text, i: nat) {
    i == 0 || i == |s| || (i < |s| && !IsContinuation(s[i]))
  }

  /** `str::get(a..b)`. */
  function Get(s: Text, a: nat, b: nat): (r: Option<Text>)
    ensures r.Some? <==> a <= b && IsCharBoundary(s, a) && IsCharBoundary(s, b)
    ensures r.Some? ==> b <= |s| && r.value == s[a..b]
  {
    if a <= b && IsCharBoundary(s, a) && IsCharBoundary(s, b) then Some(s[a..b]) else None
  }

  /** `str::get(a..)`. */
  function GetFrom(s: Text, a: nat): (r: Option<Text>)
    ensures r.Some? <==> IsCharBoundary(s, a)
    ensures r.Some? ==> a <= |s| && r.value == s[a..]
  {
    if IsCharBoundary(s, a) then Some(s[a..]) else None
  }
}
