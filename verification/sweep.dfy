/** The two-pointer sweep shared by `TTypedRegion::IterateVert` and
    `IterateHorz` (app/source/utils.h). Both walk two sorted lists of
    half-open spans [lo, hi) and report, in order, every maximal stretch
    on which the set of spans covering a coordinate stays the same,
    together with the payload of the span each side contributes. The
    vertical sweep's payload is a band's row of horizontal ranges; the
    horizontal sweep's payload carries nothing. */
module Sweep {
  import opened Wrappers
  import opened IntMath

  datatype Span<P> = Span(lo: int, hi: int, payload: P)

  /** One reported stretch: `first`/`second` hold the payload of the span
      of each list that covers it (the C++ passes an empty vector, or
      `has1`/`has2` false, for a side that does not). */
  datatype Piece<P> = Piece(lo: int, hi: int, first: Option<P>, second: Option<P>)

  /** The shape both sweeps assume (the C++ asserts it): every span is
      non-empty, and spans are in increasing order without overlap,
      though they may touch. */
  predicate Sorted<P>(a: seq<Span<P>>)
  {
    && (forall k :: 0 <= k < |a| ==> a[k].lo < a[k].hi)
    && (forall k, l :: 0 <= k < l < |a| ==> a[k].hi <= a[l].lo)
  }

  /** The payload of the span of `a[i..]` that covers `t`, if any. */
  function LookupFrom<P>(a: seq<Span<P>>, i: nat, t: int): (r: Option<P>)
    decreases |a| - i
  {
    if i >= |a| then None
    else if a[i].lo <= t < a[i].hi then Some(a[i].payload)
    else LookupFrom(a, i + 1, t)
  }

  function Lookup<P>(a: seq<Span<P>>, t: int): Option<P> { LookupFrom(a, 0, t) }

  /** Lookup finds the one span covering `t`, and only a covering span. */
  lemma {:induction false} LookupFromSpec<P>(a: seq<Span<P>>, i: nat, t: int)
    requires Sorted(a)
    ensures LookupFrom(a, i, t).Some? <==> exists k :: i <= k < |a| && a[k].lo <= t < a[k].hi
    ensures forall k :: i <= k < |a| && a[k].lo <= t < a[k].hi ==> LookupFrom(a, i, t) == Some(a[k].payload)
    decreases |a| - i
  {
    if i < |a| {
      LookupFromSpec(a, i + 1, t);
    }
  }

  /** Spans that end at or before `t` do not affect a lookup of `t`. */
  lemma {:induction false} LookupSkipsEarlier<P>(a: seq<Span<P>>, i: nat, t: int)
    requires Sorted(a) && i <= |a|
    requires i > 0 ==> a[i - 1].hi <= t
    ensures Lookup(a, t) == LookupFrom(a, i, t)
  {
    LookupFromSpec(a, 0, t);
    LookupFromSpec(a, i, t);
  }

  /** The sweep state: position `y` and the next unfinished span of each
      list. Everything before `i` (and `j`) ends at or before `y`, and
      the current span does not end before `y`. */
  predicate Inv<P>(a: seq<Span<P>>, b: seq<Span<P>>, y: int, i: nat, j: nat)
  {
    && Sorted(a) && Sorted(b) && i <= |a| && j <= |b|
    && (i < |a| ==> y < a[i].hi) && (0 < i ==> a[i - 1].hi <= y)
    && (j < |b| ==> y < b[j].hi) && (0 < j ==> b[j - 1].hi <= y)
  }

  /** Where the current span of one list next changes the picture: its
      end if `y` is inside it, else its start. */
  function Candidate<P>(a: seq<Span<P>>, i: nat, y: int): int
    requires i < |a|
  {
    if y >= a[i].lo then a[i].hi else a[i].lo
  }

  /** `nexty`: the nearest candidate of the lists not yet exhausted. */
  function NextY<P>(a: seq<Span<P>>, b: seq<Span<P>>, y: int, i: nat, j: nat): int
    requires i < |a| || j < |b|
  {
    if i < |a| && j < |b| then Min(Candidate(a, i, y), Candidate(b, j, y))
    else if i < |a| then Candidate(a, i, y)
    else Candidate(b, j, y)
  }

  /** Twice the spans left, minus one for a span already entered: each
      step enters or leaves at least one span, so this drops. */
  function Progress<P>(a: seq<Span<P>>, i: nat, y: int): nat
  {
    if i < |a| then 2 * (|a| - i) - (if y >= a[i].lo then 1 else 0) else 0
  }

  function Advance<P>(a: seq<Span<P>>, i: nat, y: int): nat
  {
    if i < |a| && y >= a[i].hi then i + 1 else i
  }

  /** One sweep step keeps the state consistent, moves forward, and makes
      progress. */
  lemma StepKeepsInv<P>(a: seq<Span<P>>, b: seq<Span<P>>, y: int, i: nat, j: nat)
    requires Inv(a, b, y, i, j) && (i < |a| || j < |b|)
    ensures var ny := NextY(a, b, y, i, j);
      && y < ny
      && Inv(a, b, ny, Advance(a, i, ny), Advance(b, j, ny))
      && Progress(a, Advance(a, i, ny), ny) + Progress(b, Advance(b, j, ny), ny)
         < Progress(a, i, y) + Progress(b, j, y)
  {
    var ny := NextY(a, b, y, i, j);
    StepOneList(a, i, y, ny);
    StepOneList(b, j, y, ny);
  }

  /** One list's share of a step to `ny`, which is no later than its
      candidate: its part of the state stays consistent and its progress
      measure does not grow, and drops when `ny` is its candidate. */
  lemma StepOneList<P>(a: seq<Span<P>>, i: nat, y: int, ny: int)
    requires Sorted(a) && i <= |a| && (i < |a| ==> y < a[i].hi) && (0 < i ==> a[i - 1].hi <= y)
    requires i < |a| ==> y < Candidate(a, i, y) && ny <= Candidate(a, i, y)
    requires y < ny
    ensures var i' := Advance(a, i, ny);
      && i' <= |a| && (i' < |a| ==> ny < a[i'].hi) && (0 < i' ==> a[i' - 1].hi <= ny)
      && Progress(a, i', ny) <= Progress(a, i, y)
      && (i < |a| && ny == Candidate(a, i, y) ==> Progress(a, i', ny) < Progress(a, i, y))
  {
    if i + 1 < |a| {
      assert a[i].hi <= a[i + 1].lo;
    }
  }

  /** The state reached from (y, i, j) by one step. */
  function StepInv<P>(a: seq<Span<P>>, b: seq<Span<P>>, y: int, i: nat, j: nat): (r: (int, nat, nat))
    requires Inv(a, b, y, i, j) && (i < |a| || j < |b|)
    ensures y < r.0 && Inv(a, b, r.0, r.1, r.2)
    ensures r.1 == Advance(a, i, r.0) && r.2 == Advance(b, j, r.0)
    ensures i < |a| ==> r.0 <= Candidate(a, i, y)
    ensures j < |b| ==> r.0 <= Candidate(b, j, y)
    ensures Progress(a, r.1, r.0) + Progress(b, r.2, r.0) < Progress(a, i, y) + Progress(b, j, y)
  {
    var ny := NextY(a, b, y, i, j);
    StepKeepsInv(a, b, y, i, j);
    (ny, Advance(a, i, ny), Advance(b, j, ny))
  }

  /** The pieces are non-empty, start at or after `lo`, are in increasing
      order without overlap, and each is covered by at least one side. */
  predicate PiecesFrom<P>(ps: seq<Piece<P>>, lo: int)
  {
    && (forall k :: 0 <= k < |ps| ==> lo <= ps[k].lo < ps[k].hi)
    && (forall k :: 0 <= k < |ps| ==> ps[k].first.Some? || ps[k].second.Some?)
    && (forall k, l :: 0 <= k < l < |ps| ==> ps[k].hi <= ps[l].lo)
  }

  /** A reported payload is the payload of some span of the list. */
  ghost predicate FromList<P>(a: seq<Span<P>>, v: Option<P>)
  {
    v.Some? ==> exists m :: 0 <= m < |a| && a[m].payload == v.value
  }

  /** The sweep loop from state (y, i, j). */
  function SweepFrom<P>(a: seq<Span<P>>, b: seq<Span<P>>, y: int, i: nat, j: nat): (ps: seq<Piece<P>>)
    requires Inv(a, b, y, i, j)
    ensures PiecesFrom(ps, y)
    ensures forall k :: 0 <= k < |ps| ==> FromList(a, ps[k].first) && FromList(b, ps[k].second)
    decreases Progress(a, i, y) + Progress(b, j, y)
  {
    if i == |a| && j == |b| then []
    else
      var c1 := i < |a| && y >= a[i].lo;
      var c2 := j < |b| && y >= b[j].lo;
      var next := StepInv(a, b, y, i, j);
      var rest := SweepFrom(a, b, next.0, next.1, next.2);
      if c1 || c2 then
        var pc := Piece(y, next.0, if c1 then Some(a[i].payload) else None, if c2 then Some(b[j].payload) else None);
        assert FromList(a, pc.first) && FromList(b, pc.second) by {
          if c1 { assert a[i].payload == pc.first.value; }
          if c2 { assert b[j].payload == pc.second.value; }
        }
        ConsPieces(a, b, pc, rest);
        [pc] + rest
      else rest
  }

  /** A piece placed before pieces that start at or after its end. */
  lemma ConsPieces<P>(a: seq<Span<P>>, b: seq<Span<P>>, pc: Piece<P>, rest: seq<Piece<P>>)
    requires pc.lo < pc.hi && (pc.first.Some? || pc.second.Some?) && PiecesFrom(rest, pc.hi)
    requires FromList(a, pc.first) && FromList(b, pc.second)
    requires forall k :: 0 <= k < |rest| ==> FromList(a, rest[k].first) && FromList(b, rest[k].second)
    ensures PiecesFrom([pc] + rest, pc.lo)
    ensures forall k :: 0 <= k < |[pc] + rest| ==> FromList(a, ([pc] + rest)[k].first) && FromList(b, ([pc] + rest)[k].second)
  {
    var ps := [pc] + rest;
    forall k | 1 <= k < |ps| ensures ps[k] == rest[k - 1] { }
  }

  /** The start of the sweep: the lower of the two first starts. */
  function Start<P>(a: seq<Span<P>>, b: seq<Span<P>>): int
    requires |a| > 0 || |b| > 0
  {
    if |a| == 0 then b[0].lo
    else if |b| == 0 then a[0].lo
    else Min(a[0].lo, b[0].lo)
  }

  /** `IterateVert` / `IterateHorz`: the pieces handed to the callback. */
  function Sweep<P>(a: seq<Span<P>>, b: seq<Span<P>>): (ps: seq<Piece<P>>)
    requires Sorted(a) && Sorted(b)
    ensures forall k, l :: 0 <= k < l < |ps| ==> ps[k].hi <= ps[l].lo
    ensures forall k :: 0 <= k < |ps| ==> ps[k].lo < ps[k].hi
    ensures forall k :: 0 <= k < |ps| ==> FromList(a, ps[k].first) && FromList(b, ps[k].second)
  {
    if |a| == 0 && |b| == 0 then [] else SweepFrom(a, b, Start(a, b), 0, 0)
  }

  /** The piece covering `t`, if any. */
  function PieceAt<P>(ps: seq<Piece<P>>, t: int): (r: Option<Piece<P>>)
    ensures r.Some? ==> r.value in ps && r.value.lo <= t < r.value.hi
  {
    if |ps| == 0 then None
    else if ps[0].lo <= t < ps[0].hi then Some(ps[0])
    else PieceAt(ps[1..], t)
  }

  /** Pieces in increasing order without overlap. */
  predicate SortedPieces<P>(ps: seq<Piece<P>>)
  {
    && (forall k :: 0 <= k < |ps| ==> ps[k].lo < ps[k].hi)
    && (forall k, l :: 0 <= k < l < |ps| ==> ps[k].hi <= ps[l].lo)
  }

  /** In sorted pieces the piece found is the one covering `t`. */
  lemma {:induction false} PieceAtSpec<P>(ps: seq<Piece<P>>, t: int)
    requires SortedPieces(ps)
    ensures PieceAt(ps, t).Some? <==> exists k :: 0 <= k < |ps| && ps[k].lo <= t < ps[k].hi
    ensures forall k :: 0 <= k < |ps| && ps[k].lo <= t < ps[k].hi ==> PieceAt(ps, t) == Some(ps[k])
  {
    if |ps| > 0 {
      PieceAtSpec(ps[1..], t);
      forall k | 1 <= k < |ps| ensures ps[1..][k - 1] == ps[k] { }
      if exists k :: 0 <= k < |ps| && ps[k].lo <= t < ps[k].hi {
        var k :| 0 <= k < |ps| && ps[k].lo <= t < ps[k].hi;
        if k > 0 {
          assert ps[1..][k - 1].lo <= t < ps[1..][k - 1].hi;
        }
      }
    }
  }

  lemma {:induction false} PieceAtNone<P>(ps: seq<Piece<P>>, t: int)
    requires forall k :: 0 <= k < |ps| ==> t < ps[k].lo
    ensures PieceAt(ps, t) == None
  {
    if |ps| > 0 {
      PieceAtNone(ps[1..], t);
    }
  }

  /** Inside the current stretch [y, ny) only the current span of a list
      can cover a coordinate, and it does exactly when `y` is inside it. */
  lemma CurrentLookup<P>(a: seq<Span<P>>, i: nat, y: int, ny: int, t: int)
    requires Sorted(a) && i <= |a| && (i < |a| ==> y < a[i].hi)
    requires y <= t < ny && (i < |a| ==> ny <= Candidate(a, i, y))
    ensures LookupFrom(a, i, t) == (if i < |a| && y >= a[i].lo then Some(a[i].payload) else None)
  {
    LookupFromSpec(a, i, t);
    if i < |a| {
      forall k | i + 1 <= k < |a| ensures !(a[k].lo <= t) {
        assert a[i].hi <= a[k].lo;
      }
    }
  }

  /** Past the current stretch, a span the step finished covers nothing. */
  lemma LaterLookup<P>(a: seq<Span<P>>, i: nat, ny: int, t: int)
    requires Sorted(a) && i <= |a| && ny <= t
    ensures LookupFrom(a, i, t) == LookupFrom(a, Advance(a, i, ny), t)
  {
  }

  /** What the sweep from (y, i, j) reports at a coordinate `t >= y`: a
      piece exactly when some remaining span covers `t`, carrying the
      payloads of the covering spans. */
  lemma {:induction false} SweepFromSemantics<P>(a: seq<Span<P>>, b: seq<Span<P>>, y: int, i: nat, j: nat, t: int)
    requires Inv(a, b, y, i, j) && y <= t
    ensures var pc := PieceAt(SweepFrom(a, b, y, i, j), t);
      && (pc.Some? <==> LookupFrom(a, i, t).Some? || LookupFrom(b, j, t).Some?)
      && (pc.Some? ==> pc.value.first == LookupFrom(a, i, t) && pc.value.second == LookupFrom(b, j, t))
    decreases Progress(a, i, y) + Progress(b, j, y)
  {
    if i < |a| || j < |b| {
      var next := StepInv(a, b, y, i, j);
      if t < next.0 {
        HeadPiece(a, b, y, i, j, t);
      } else {
        SkipHead(a, b, y, i, j, t);
        SweepFromSemantics(a, b, next.0, next.1, next.2, t);
      }
    }
  }

  /** Before the next event the piece found is the first one, holding the
      current span of each list that covers the point. */
  lemma HeadPiece<P>(a: seq<Span<P>>, b: seq<Span<P>>, y: int, i: nat, j: nat, t: int)
    requires Inv(a, b, y, i, j) && (i < |a| || j < |b|) && y <= t < StepInv(a, b, y, i, j).0
    ensures var pc := PieceAt(SweepFrom(a, b, y, i, j), t);
      && (pc.Some? <==> LookupFrom(a, i, t).Some? || LookupFrom(b, j, t).Some?)
      && (pc.Some? ==> pc.value.first == LookupFrom(a, i, t) && pc.value.second == LookupFrom(b, j, t))
  {
    var next := StepInv(a, b, y, i, j);
    var rest := SweepFrom(a, b, next.0, next.1, next.2);
    assert PieceAt(rest, t) == None by { PieceAtNone(rest, t); }
    CurrentLookup(a, i, y, next.0, t);
    CurrentLookup(b, j, y, next.0, t);
  }

  /** From the next event on, the first piece is passed over and the
      lookups start from the advanced indices. */
  lemma SkipHead<P>(a: seq<Span<P>>, b: seq<Span<P>>, y: int, i: nat, j: nat, t: int)
    requires Inv(a, b, y, i, j) && (i < |a| || j < |b|) && StepInv(a, b, y, i, j).0 <= t
    ensures var next := StepInv(a, b, y, i, j);
      && PieceAt(SweepFrom(a, b, y, i, j), t) == PieceAt(SweepFrom(a, b, next.0, next.1, next.2), t)
      && LookupFrom(a, i, t) == LookupFrom(a, next.1, t)
      && LookupFrom(b, j, t) == LookupFrom(b, next.2, t)
  {
    var next := StepInv(a, b, y, i, j);
    var ps := SweepFrom(a, b, y, i, j);
    var rest := SweepFrom(a, b, next.0, next.1, next.2);
    if ps != rest {
      assert ps[0].hi == next.0 && ps[1..] == rest;
    }
    LaterLookup(a, i, next.0, t);
    LaterLookup(b, j, next.0, t);
  }


  /** The whole sweep reports, at every coordinate, exactly the spans of
      both lists that cover it. */
  lemma SweepSemantics<P>(a: seq<Span<P>>, b: seq<Span<P>>, t: int)
    requires Sorted(a) && Sorted(b)
    ensures var pc := PieceAt(Sweep(a, b), t);
      && (pc.Some? <==> Lookup(a, t).Some? || Lookup(b, t).Some?)
      && (pc.Some? ==> pc.value.first == Lookup(a, t) && pc.value.second == Lookup(b, t))
  {
    if |a| > 0 || |b| > 0 {
      var y := Start(a, b);
      if t >= y {
        SweepFromSemantics(a, b, y, 0, 0, t);
      } else {
        PieceAtNone(Sweep(a, b), t);
        LookupFromSpec(a, 0, t);
        LookupFromSpec(b, 0, t);
        if |a| > 0 {
          forall k | 0 <= k < |a| ensures !(a[k].lo <= t) {
            if k > 0 { assert a[0].hi <= a[k].lo; }
          }
        }
        if |b| > 0 {
          forall k | 0 <= k < |b| ensures !(b[k].lo <= t) {
            if k > 0 { assert b[0].hi <= b[k].lo; }
          }
        }
      }
    }
  }
}
