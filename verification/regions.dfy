/** `TTypedRegion<int>` (`TIntRegion`, app/source/utils.h): a set of
    points kept as vertical bands in increasing order, each band holding
    a row of horizontal ranges in increasing order. `Union`,
    `Intersection` and `Subtract` run the vertical sweep over the bands of
    both operands and, inside every stretch, the horizontal sweep over the
    two rows, keeping the ranges the operation selects. */
module Regions {
  import opened Wrappers
  import opened Sweep
  import Geometry

  /** `THorizontalRange`: [lo, hi) carrying nothing. */
  type Range = Span<()>
  type Row = seq<Range>
  /** `TVerticalRange`: [lo, hi) as top..bottom, with its row. */
  type Band = Span<Row>
  type Region = seq<Band>

  /** Membership of an x coordinate in a row. */
  predicate Covers(row: Row, x: int) { exists k :: 0 <= k < |row| && row[k].lo <= x < row[k].hi }

  /** Rows as `AppendHorzRange` leaves them: in order and never touching. */
  predicate Separated(row: Row)
  {
    && (forall k :: 0 <= k < |row| ==> row[k].lo < row[k].hi)
    && (forall k, l :: 0 <= k < l < |row| ==> row[k].hi < row[l].lo)
  }

  /** The shape every region operation assumes and produces: bands in
      order, each non-empty with a non-empty sorted row. */
  predicate RegionOk(r: Region)
  {
    && Sorted(r)
    && (forall k :: 0 <= k < |r| ==> |r[k].payload| > 0 && Sorted(r[k].payload))
  }

  /** The row in force at height `y` (empty outside every band). */
  function RowAt(r: Region, y: int): Row
  {
    Lookup(r, y).GetOr([])
  }

  predicate InRegion(r: Region, p: Geometry.Point) { Covers(RowAt(r, p.y), p.x) }

  // ---------------------------------------------------------------------
  // Building rows

  /** `TVerticalRange::AppendHorzRange`: add [lo, hi) after the existing
      ranges, merging with the last one when they touch. */
  function AppendHorzRange(row: Row, lo: int, hi: int): (r: Row)
    requires lo < hi && Separated(row)
    requires |row| > 0 ==> row[|row| - 1].hi <= lo
    ensures Separated(r) && |r| > 0 && r[|r| - 1].hi == hi
    ensures |row| > 0 && row[|row| - 1].hi == lo ==> |r| == |row|
    ensures !(|row| > 0 && row[|row| - 1].hi == lo) ==> |r| == |row| + 1
    ensures forall x :: Covers(r, x) <==> Covers(row, x) || lo <= x < hi
  {
    if |row| > 0 && row[|row| - 1].hi == lo then
      var r := row[..|row| - 1] + [Span(row[|row| - 1].lo, hi, ())];
      MergeCovers(row, lo, hi, r);
      r
    else
      var r := row + [Span(lo, hi, ())];
      PushCovers(row, lo, hi, r);
      r
  }

  lemma MergeCovers(row: Row, lo: int, hi: int, r: Row)
    requires lo < hi && Separated(row) && |row| > 0 && row[|row| - 1].hi == lo
    requires r == row[..|row| - 1] + [Span(row[|row| - 1].lo, hi, ())]
    ensures forall x :: Covers(r, x) <==> Covers(row, x) || lo <= x < hi
  {
    var n := |row| - 1;
    forall x ensures Covers(r, x) <==> Covers(row, x) || lo <= x < hi {
      if Covers(row, x) {
        var k :| 0 <= k < |row| && row[k].lo <= x < row[k].hi;
        if k < n { assert r[k] == row[k]; } else { assert r[n].lo <= x < r[n].hi; }
      }
      if lo <= x < hi { assert r[n].lo <= x < r[n].hi; }
      if Covers(r, x) {
        var k :| 0 <= k < |r| && r[k].lo <= x < r[k].hi;
        if k < n { assert row[k] == r[k]; }
        else if x < lo { assert row[n].lo <= x < row[n].hi; }
      }
    }
  }

  lemma PushCovers(row: Row, lo: int, hi: int, r: Row)
    requires r == row + [Span(lo, hi, ())]
    ensures forall x :: Covers(r, x) <==> Covers(row, x) || lo <= x < hi
  {
    forall x ensures Covers(r, x) <==> Covers(row, x) || lo <= x < hi {
      if Covers(row, x) {
        var k :| 0 <= k < |row| && row[k].lo <= x < row[k].hi;
        assert r[k] == row[k];
      }
      if lo <= x < hi { assert r[|row|].lo <= x < r[|row|].hi; }
      if Covers(r, x) {
        var k :| 0 <= k < |r| && r[k].lo <= x < r[k].hi;
        if k < |row| { assert row[k] == r[k]; }
      }
    }
  }

  datatype Op = UnionOp | IntersectionOp | SubtractOp

  /** Which stretches an operation keeps, from `has1` and `has2`. */
  predicate Keep(op: Op, has1: bool, has2: bool)
  {
    match op
    case UnionOp => has1 || has2
    case IntersectionOp => has1 && has2
    case SubtractOp => has1 && !has2
  }

  /** The `IterateHorz` callback of an operation for one stretch: append
      it when the operation keeps it. */
  function CollectPiece(op: Op, pc: Piece<()>, acc: Row): (r: Row)
    requires pc.lo < pc.hi && Separated(acc)
    requires |acc| > 0 ==> acc[|acc| - 1].hi <= pc.lo
    ensures Separated(r)
    ensures |r| > 0 ==> r[|r| - 1].hi <= pc.hi
    ensures forall x :: Covers(r, x) <==> Covers(acc, x) || (Keep(op, pc.first.Some?, pc.second.Some?) && pc.lo <= x < pc.hi)
  {
    if Keep(op, pc.first.Some?, pc.second.Some?) then AppendHorzRange(acc, pc.lo, pc.hi) else acc
  }

  /** The callback applied to the pieces in order. */
  function CollectRow(op: Op, ps: seq<Piece<()>>, acc: Row): (r: Row)
    requires SortedPieces(ps) && Separated(acc)
    requires |acc| > 0 && |ps| > 0 ==> acc[|acc| - 1].hi <= ps[0].lo
    ensures Separated(r)
    ensures |ps| == 0 ==> r == acc
    ensures |ps| > 0 && |r| > 0 ==> r[|r| - 1].hi <= ps[|ps| - 1].hi
    decreases |ps|
  {
    if |ps| == 0 then acc
    else
      var acc' := CollectPiece(op, ps[0], acc);
      PiecesTail(ps);
      CollectRow(op, ps[1..], acc')
  }

  /** The pieces after the first are sorted and start after it ends. */
  lemma PiecesTail<P>(ps: seq<Piece<P>>)
    requires SortedPieces(ps) && |ps| > 0
    ensures SortedPieces(ps[1..])
    ensures ps[0].lo < ps[0].hi <= ps[|ps| - 1].hi
    ensures |ps| > 1 ==> ps[0].hi <= ps[1].lo && ps[1..][|ps| - 2] == ps[|ps| - 1]
    ensures forall k :: 1 <= k < |ps| ==> ps[0].hi <= ps[k].lo
  {
    assert ps[0].hi <= ps[|ps| - 1].hi by {
      if |ps| > 1 {
        assert ps[0].hi <= ps[|ps| - 1].lo;
      }
    }
  }

  /** Some stretch of `ps` holding x is one the operation keeps. */
  predicate KeptAt(op: Op, ps: seq<Piece<()>>, x: int)
  {
    |ps| > 0 && ((ps[0].lo <= x < ps[0].hi && Keep(op, ps[0].first.Some?, ps[0].second.Some?)) || KeptAt(op, ps[1..], x))
  }

  /** The collected row covers what the accumulator covered plus the kept
      pieces. */
  lemma {:induction false} CollectRowCovers(op: Op, ps: seq<Piece<()>>, acc: Row, x: int)
    requires SortedPieces(ps) && Separated(acc)
    requires |acc| > 0 && |ps| > 0 ==> acc[|acc| - 1].hi <= ps[0].lo
    ensures Covers(CollectRow(op, ps, acc), x) <==> Covers(acc, x) || KeptAt(op, ps, x)
    decreases |ps|
  {
    if |ps| > 0 {
      PiecesTail(ps);
      CollectRowCovers(op, ps[1..], CollectPiece(op, ps[0], acc), x);
    }
  }

  /** In sorted pieces, a kept stretch holding x is the piece found at x. */
  lemma {:induction false} KeptAtPieceAt(op: Op, ps: seq<Piece<()>>, x: int)
    requires SortedPieces(ps)
    ensures var pc := PieceAt(ps, x);
      KeptAt(op, ps, x) <==> pc.Some? && Keep(op, pc.value.first.Some?, pc.value.second.Some?)
    decreases |ps|
  {
    if |ps| > 0 {
      PiecesTail(ps);
      KeptAtPieceAt(op, ps[1..], x);
      if ps[0].lo <= x < ps[0].hi {
        PieceAtNone(ps[1..], x);
        KeptAtNone(op, ps[1..], x);
      }
    }
  }

  lemma {:induction false} KeptAtNone(op: Op, ps: seq<Piece<()>>, x: int)
    requires forall k :: 0 <= k < |ps| ==> x < ps[k].lo
    ensures !KeptAt(op, ps, x)
    decreases |ps|
  {
    if |ps| > 0 {
      KeptAtNone(op, ps[1..], x);
    }
  }

  /** Combine two rows with the horizontal sweep. */
  function CombineRows(op: Op, r1: Row, r2: Row): (r: Row)
    requires Sorted(r1) && Sorted(r2)
    ensures Separated(r)
  {
    CollectRow(op, Sweep.Sweep(r1, r2), [])
  }

  lemma LookupCovers(row: Row, x: int)
    requires Sorted(row)
    ensures Lookup(row, x).Some? <==> Covers(row, x)
  {
    LookupFromSpec(row, 0, x);
  }

  /** A point of the combined row is kept by the operation from its
      membership in the two rows. */
  lemma CombineRowsCovers(op: Op, r1: Row, r2: Row, x: int)
    requires Sorted(r1) && Sorted(r2)
    ensures Covers(CombineRows(op, r1, r2), x) <==> Keep(op, Covers(r1, x), Covers(r2, x))
  {
    var ps := Sweep.Sweep(r1, r2);
    CollectRowCovers(op, ps, [], x);
    KeptAtPieceAt(op, ps, x);
    SweepSemantics(r1, r2, x);
    LookupCovers(r1, x);
    LookupCovers(r2, x);
  }

  // ---------------------------------------------------------------------
  // Building regions

  /** `AppendRangeAtBottom`: drop a band with an empty row; extend the
      last band when the new one touches it and has the same row;
      otherwise append. */
  function AppendRangeAtBottom(r: Region, band: Band): (res: Region)
    requires RegionOk(r) && band.lo < band.hi && Sorted(band.payload)
    requires |r| > 0 ==> r[|r| - 1].hi <= band.lo
    ensures RegionOk(res)
    ensures |band.payload| == 0 ==> res == r
    ensures |res| > 0 ==> res[|res| - 1].hi <= band.hi
    ensures |band.payload| > 0 && |r| > 0 && r[|r| - 1].hi == band.lo && r[|r| - 1].payload == band.payload
            ==> |res| == |r|
    ensures forall y :: RowAt(res, y) == if band.lo <= y < band.hi then band.payload else RowAt(r, y)
  {
    if |band.payload| == 0 then
      assert forall y :: RowAt(r, y) == if band.lo <= y < band.hi then band.payload else RowAt(r, y) by {
        forall y { EmptyBandRowAt(r, band, y); }
      }
      r
    else if |r| > 0 && r[|r| - 1].hi == band.lo && r[|r| - 1].payload == band.payload then
      var res := r[..|r| - 1] + [Span(r[|r| - 1].lo, band.hi, band.payload)];
      ExtendOk(r, band);
      assert forall y :: RowAt(res, y) == if band.lo <= y < band.hi then band.payload else RowAt(r, y) by {
        forall y { ExtendRowAt(r, band, res, y); }
      }
      res
    else
      var res := r + [band];
      PushOk(r, band);
      assert forall y :: RowAt(res, y) == if band.lo <= y < band.hi then band.payload else RowAt(r, y) by {
        forall y { PushRowAt(r, band, y); }
      }
      res
  }

  lemma EmptyBandRowAt(r: Region, band: Band, y: int)
    requires RegionOk(r) && |band.payload| == 0
    requires |r| > 0 ==> r[|r| - 1].hi <= band.lo
    ensures RowAt(r, y) == if band.lo <= y < band.hi then band.payload else RowAt(r, y)
  {
    if band.lo <= y < band.hi {
      LookupFromSpec(r, 0, y);
    }
  }

  lemma ExtendOk(r: Region, band: Band)
    requires RegionOk(r) && band.lo < band.hi && Sorted(band.payload) && |band.payload| > 0
    requires |r| > 0 && r[|r| - 1].hi == band.lo
    ensures RegionOk(r[..|r| - 1] + [Span(r[|r| - 1].lo, band.hi, band.payload)])
  {
    var res := r[..|r| - 1] + [Span(r[|r| - 1].lo, band.hi, band.payload)];
    forall k, l | 0 <= k < l < |res| ensures res[k].hi <= res[l].lo {
      assert res[k] == r[k];
      if l < |res| - 1 { assert res[l] == r[l]; }
    }
  }

  lemma ExtendRowAt(r: Region, band: Band, res: Region, y: int)
    requires RegionOk(r) && band.lo < band.hi && Sorted(band.payload) && |band.payload| > 0
    requires |r| > 0 && r[|r| - 1].hi == band.lo && r[|r| - 1].payload == band.payload
    requires res == r[..|r| - 1] + [Span(r[|r| - 1].lo, band.hi, band.payload)]
    ensures RowAt(res, y) == if band.lo <= y < band.hi then band.payload else RowAt(r, y)
  {
    var n := |r| - 1;
    ExtendOk(r, band);
    LookupFromSpec(r, 0, y);
    LookupFromSpec(res, 0, y);
    if band.lo <= y < band.hi {
      assert res[n].lo <= y < res[n].hi;
    } else if r[n].lo <= y < r[n].hi {
      assert res[n].lo <= y < res[n].hi;
    } else if Lookup(r, y).Some? {
      var k :| 0 <= k < |r| && r[k].lo <= y < r[k].hi;
      assert res[k] == r[k];
    }
  }

  lemma PushOk(r: Region, band: Band)
    requires RegionOk(r) && band.lo < band.hi && Sorted(band.payload) && |band.payload| > 0
    requires |r| > 0 ==> r[|r| - 1].hi <= band.lo
    ensures RegionOk(r + [band])
  {
    var res := r + [band];
    forall k, l | 0 <= k < l < |res| ensures res[k].hi <= res[l].lo {
      assert res[k] == r[k];
      if l < |r| { assert res[l] == r[l]; }
      else if k < |r| - 1 { assert r[k].hi <= r[|r| - 1].lo; }
    }
  }

  lemma PushRowAt(r: Region, band: Band, y: int)
    requires RegionOk(r) && band.lo < band.hi && Sorted(band.payload) && |band.payload| > 0
    requires |r| > 0 ==> r[|r| - 1].hi <= band.lo
    ensures RowAt(r + [band], y) == if band.lo <= y < band.hi then band.payload else RowAt(r, y)
  {
    var res := r + [band];
    PushOk(r, band);
    LookupFromSpec(r, 0, y);
    LookupFromSpec(res, 0, y);
    if band.lo <= y < band.hi {
      assert res[|r|].lo <= y < res[|r|].hi;
    } else if Lookup(r, y).Some? {
      var k :| 0 <= k < |r| && r[k].lo <= y < r[k].hi;
      assert res[k] == r[k];
    }
  }

  // ---------------------------------------------------------------------
  // Region operations

  /** Pieces of the vertical sweep whose rows are sorted. */
  predicate RowsSorted(ps: seq<Piece<Row>>)
  {
    forall k :: 0 <= k < |ps| ==> PieceRowsSorted(ps[k])
  }

  predicate PieceRowsSorted(pc: Piece<Row>)
  {
    (pc.first.Some? ==> Sorted(pc.first.value)) && (pc.second.Some? ==> Sorted(pc.second.value))
  }

  /** The row an operation builds for one vertical stretch (an absent side
      is an empty row). */
  function StretchRow(op: Op, pc: Piece<Row>): Row
    requires PieceRowsSorted(pc)
  {
    CombineRows(op, pc.first.GetOr([]), pc.second.GetOr([]))
  }

  predicate BandsReady(bands: seq<Band>)
  {
    Sorted(bands) && forall k :: 0 <= k < |bands| ==> Sorted(bands[k].payload)
  }

  /** The bands an operation produces, one per vertical stretch, before
      they are appended at the bottom. */
  function StretchBands(op: Op, ps: seq<Piece<Row>>): (bands: seq<Band>)
    requires RowsSorted(ps) && SortedPieces(ps)
    ensures |bands| == |ps|
    ensures forall k :: 0 <= k < |ps| ==> bands[k] == Span(ps[k].lo, ps[k].hi, StretchRow(op, ps[k]))
    ensures BandsReady(bands)
  {
    seq(|ps|, k requires 0 <= k < |ps| => Span(ps[k].lo, ps[k].hi, StretchRow(op, ps[k])))
  }

  /** `AppendRangeAtBottom` for each band from `i` on, in order. */
  function AppendBands(bands: seq<Band>, i: nat, acc: Region): (r: Region)
    requires BandsReady(bands) && i <= |bands| && RegionOk(acc)
    requires |acc| > 0 && i < |bands| ==> acc[|acc| - 1].hi <= bands[i].lo
    ensures RegionOk(r)
    decreases |bands| - i
  {
    if i == |bands| then acc
    else
      var acc' := AppendRangeAtBottom(acc, bands[i]);
      assert i + 1 < |bands| ==> bands[i].hi <= bands[i + 1].lo;
      AppendBands(bands, i + 1, acc')
  }

  /** The rows of the result: a band's row where the band lies, the
      accumulator's row elsewhere. */
  lemma {:induction false} AppendBandsRowAt(bands: seq<Band>, i: nat, acc: Region, y: int)
    requires BandsReady(bands) && i <= |bands| && RegionOk(acc)
    requires |acc| > 0 && i < |bands| ==> acc[|acc| - 1].hi <= bands[i].lo
    ensures RowAt(AppendBands(bands, i, acc), y) == LookupFrom(bands, i, y).GetOr(RowAt(acc, y))
    decreases |bands| - i
  {
    if i < |bands| {
      var acc' := AppendRangeAtBottom(acc, bands[i]);
      assert i + 1 < |bands| ==> bands[i].hi <= bands[i + 1].lo;
      AppendBandsRowAt(bands, i + 1, acc', y);
      if bands[i].lo <= y < bands[i].hi {
        LookupFromSpec(bands, i + 1, y);
        forall k | i + 1 <= k < |bands| ensures !(bands[k].lo <= y) {
          assert bands[i].hi <= bands[k].lo;
        }
      }
    }
  }

  /** `Union`, `Intersection` and `Subtract`: the vertical sweep over both
      operands' bands, a horizontal sweep per stretch. */
  function Combine(op: Op, a: Region, b: Region): (r: Region)
    requires RegionOk(a) && RegionOk(b)
    ensures RegionOk(r)
  {
    var ps := Sweep.Sweep(a, b);
    SweepRowsSorted(a, b);
    AppendBands(StretchBands(op, ps), 0, [])
  }

  lemma SweepRowsSorted(a: Region, b: Region)
    requires RegionOk(a) && RegionOk(b)
    ensures RowsSorted(Sweep.Sweep(a, b))
  {
    var ps := Sweep.Sweep(a, b);
    forall k | 0 <= k < |ps| ensures PieceRowsSorted(ps[k]) {
      assert FromList(a, ps[k].first) && FromList(b, ps[k].second);
    }
  }

  lemma RowAtSorted(r: Region, y: int)
    requires RegionOk(r)
    ensures Sorted(RowAt(r, y))
  {
    LookupFromSpec(r, 0, y);
  }

  /** The band found at `y` is the one built from the piece found there. */
  lemma LookupStretchBands(op: Op, ps: seq<Piece<Row>>, y: int)
    requires RowsSorted(ps) && SortedPieces(ps)
    ensures var pc := PieceAt(ps, y);
      Lookup(StretchBands(op, ps), y) == if pc.Some? then Some(StretchRow(op, pc.value)) else None
  {
    var bands := StretchBands(op, ps);
    PieceAtSpec(ps, y);
    LookupFromSpec(bands, 0, y);
    if PieceAt(ps, y).Some? {
      var k :| 0 <= k < |ps| && ps[k].lo <= y < ps[k].hi;
      assert bands[k].lo <= y < bands[k].hi;
    }
  }

  /** The row of the combined region at height `y`: the operation applied
      to the operands' rows there. */
  lemma CombineRowAt(op: Op, a: Region, b: Region, y: int)
    requires RegionOk(a) && RegionOk(b)
    ensures Sorted(RowAt(a, y)) && Sorted(RowAt(b, y))
    ensures RowAt(Combine(op, a, b), y) ==
      if Lookup(a, y).Some? || Lookup(b, y).Some? then CombineRows(op, RowAt(a, y), RowAt(b, y)) else []
  {
    var ps := Sweep.Sweep(a, b);
    SweepRowsSorted(a, b);
    RowAtSorted(a, y);
    RowAtSorted(b, y);
    var bands := StretchBands(op, ps);
    assert Combine(op, a, b) == AppendBands(bands, 0, []);
    AppendBandsRowAt(bands, 0, [], y);
    assert RowAt(Combine(op, a, b), y) == Lookup(bands, y).GetOr([]);
    LookupStretchBands(op, ps, y);
    var pc := PieceAt(ps, y);
    SweepSemantics(a, b, y);
    if pc.Some? {
      assert pc.value.first.GetOr([]) == RowAt(a, y);
      assert pc.value.second.GetOr([]) == RowAt(b, y);
      assert RowAt(Combine(op, a, b), y) == StretchRow(op, pc.value);
    }
  }

  /** Point-membership semantics of the three operations. */
  lemma CombineSemantics(op: Op, a: Region, b: Region, p: Geometry.Point)
    requires RegionOk(a) && RegionOk(b)
    ensures InRegion(Combine(op, a, b), p) <==> Keep(op, InRegion(a, p), InRegion(b, p))
  {
    CombineRowAt(op, a, b, p.y);
    CombineRowsCovers(op, RowAt(a, p.y), RowAt(b, p.y), p.x);
  }

  function Union(a: Region, b: Region): (r: Region)
    requires RegionOk(a) && RegionOk(b)
    ensures RegionOk(r)
    ensures forall p :: InRegion(r, p) <==> InRegion(a, p) || InRegion(b, p)
  {
    var r := Combine(UnionOp, a, b);
    assert forall p :: InRegion(r, p) <==> InRegion(a, p) || InRegion(b, p) by {
      forall p { CombineSemantics(UnionOp, a, b, p); }
    }
    r
  }

  function Intersection(a: Region, b: Region): (r: Region)
    requires RegionOk(a) && RegionOk(b)
    ensures RegionOk(r)
    ensures forall p :: InRegion(r, p) <==> InRegion(a, p) && InRegion(b, p)
  {
    var r := Combine(IntersectionOp, a, b);
    assert forall p :: InRegion(r, p) <==> InRegion(a, p) && InRegion(b, p) by {
      forall p { CombineSemantics(IntersectionOp, a, b, p); }
    }
    r
  }

  function Subtract(a: Region, b: Region): (r: Region)
    requires RegionOk(a) && RegionOk(b)
    ensures RegionOk(r)
    ensures forall p :: InRegion(r, p) <==> InRegion(a, p) && !InRegion(b, p)
  {
    var r := Combine(SubtractOp, a, b);
    assert forall p :: InRegion(r, p) <==> InRegion(a, p) && !InRegion(b, p) by {
      forall p { CombineSemantics(SubtractOp, a, b, p); }
    }
    r
  }

  // ---------------------------------------------------------------------
  // Rectangles in and out

  /** The constructor from a rectangle: one band with one range, or
      nothing for an empty rectangle. */
  function FromRect(q: Geometry.Rect): (r: Region)
    ensures RegionOk(r)
    ensures forall p :: InRegion(r, p) <==> Geometry.ContainsPoint(q, p)
  {
    if Geometry.IsEmpty(q) then []
    else
      var r := [Span(q.top, q.bottom, [Span(q.left, q.right, ())])];
      assert forall p :: InRegion(r, p) <==> Geometry.ContainsPoint(q, p) by {
        forall p ensures InRegion(r, p) <==> Geometry.ContainsPoint(q, p) {
          LookupFromSpec(r, 0, p.y);
          if Geometry.ContainsPoint(q, p) {
            assert RowAt(r, p.y)[0].lo <= p.x < RowAt(r, p.y)[0].hi;
          }
        }
      }
      r
  }

  /** The rectangles of one band, left to right. */
  function BandRects(band: Band): (qs: seq<Geometry.Rect>)
    ensures |qs| == |band.payload|
    ensures forall m :: 0 <= m < |qs| ==>
      qs[m] == Geometry.Rect(band.payload[m].lo, band.lo, band.payload[m].hi, band.hi)
  {
    seq(|band.payload|, m requires 0 <= m < |band.payload| =>
      Geometry.Rect(band.payload[m].lo, band.lo, band.payload[m].hi, band.hi))
  }

  /** `ForEach`: the rectangles handed to the callback, band by band. */
  function Rects(r: Region): (qs: seq<Geometry.Rect>)
  {
    if |r| == 0 then [] else BandRects(r[0]) + Rects(r[1..])
  }

  /** `q` is the rectangle of range `m` of band `k`. */
  predicate IsRangeRect(r: Region, k: int, m: int, q: Geometry.Rect)
  {
    0 <= k < |r| && 0 <= m < |r[k].payload| &&
    q == Geometry.Rect(r[k].payload[m].lo, r[k].lo, r[k].payload[m].hi, r[k].hi)
  }

  /** A rectangle of `ForEach` is a range of some band. */
  lemma {:induction false} RectsMembers(r: Region, q: Geometry.Rect)
    ensures q in Rects(r) <==> exists k, m :: IsRangeRect(r, k, m, q)
  {
    if |r| > 0 {
      RectsMembers(r[1..], q);
      assert Rects(r) == BandRects(r[0]) + Rects(r[1..]);
      if q in BandRects(r[0]) {
        var m :| 0 <= m < |BandRects(r[0])| && BandRects(r[0])[m] == q;
        assert IsRangeRect(r, 0, m, q);
      }
      if q in Rects(r[1..]) {
        var k, m :| IsRangeRect(r[1..], k, m, q);
        assert r[k + 1] == r[1..][k];
        assert IsRangeRect(r, k + 1, m, q);
      }
      if exists k, m :: IsRangeRect(r, k, m, q) {
        var k, m :| IsRangeRect(r, k, m, q);
        if k == 0 {
          assert q == BandRects(r[0])[m];
        } else {
          assert r[1..][k - 1] == r[k];
          assert IsRangeRect(r[1..], k - 1, m, q);
        }
      }
    }
  }

  /** `Contains(point)`: some rectangle of `ForEach` holds the point. */
  predicate ContainsPoint(r: Region, p: Geometry.Point)
  {
    exists q :: q in Rects(r) && Geometry.ContainsPoint(q, p)
  }

  lemma ContainsPointInRegion(r: Region, p: Geometry.Point)
    requires RegionOk(r) && ContainsPoint(r, p)
    ensures InRegion(r, p)
  {
    var q :| q in Rects(r) && Geometry.ContainsPoint(q, p);
    RectsMembers(r, q);
    var k, m :| IsRangeRect(r, k, m, q);
    LookupFromSpec(r, 0, p.y);
    assert RowAt(r, p.y) == r[k].payload;
  }

  lemma InRegionContainsPoint(r: Region, p: Geometry.Point)
    requires RegionOk(r) && InRegion(r, p)
    ensures ContainsPoint(r, p)
  {
    LookupFromSpec(r, 0, p.y);
    var k :| 0 <= k < |r| && r[k].lo <= p.y < r[k].hi;
    assert RowAt(r, p.y) == r[k].payload;
    var m :| 0 <= m < |r[k].payload| && r[k].payload[m].lo <= p.x < r[k].payload[m].hi;
    var q := Geometry.Rect(r[k].payload[m].lo, r[k].lo, r[k].payload[m].hi, r[k].hi);
    assert IsRangeRect(r, k, m, q);
    RectsMembers(r, q);
    assert Geometry.ContainsPoint(q, p);
  }

  /** The rectangles of `ForEach` cover exactly the points of the region. */
  lemma ContainsPointIffInRegion(r: Region, p: Geometry.Point)
    requires RegionOk(r)
    ensures ContainsPoint(r, p) <==> InRegion(r, p)
  {
    if ContainsPoint(r, p) { ContainsPointInRegion(r, p); }
    if InRegion(r, p) { InRegionContainsPoint(r, p); }
  }

  /** Every rectangle of `ForEach` is non-empty and lies inside the region. */
  lemma RectsInside(r: Region, q: Geometry.Rect, p: Geometry.Point)
    requires RegionOk(r) && q in Rects(r) && Geometry.ContainsPoint(q, p)
    ensures InRegion(r, p)
  {
    ContainsPointInRegion(r, p);
  }

  /** The display refresh (app/source/kompletegui.cpp) clips the dirty
      region to the screen and sends each of its rectangles: every one of
      them lies on the screen. */
  lemma ClippedRectsOnScreen(dirty: Region, width: int, height: int, q: Geometry.Rect)
    requires RegionOk(dirty)
    requires q in Rects(Intersection(dirty, FromRect(Geometry.Rect(0, 0, width, height))))
    ensures Geometry.ContainsRect(Geometry.Rect(0, 0, width, height), q)
  {
    var screen := Geometry.Rect(0, 0, width, height);
    var clipped := Intersection(dirty, FromRect(screen));
    forall p | Geometry.ContainsPoint(q, p) ensures Geometry.ContainsPoint(screen, p) {
      RectsInside(clipped, q, p);
    }
    Geometry.ContainsRectIffPoints(screen, q);
  }
}
