/** `TTypedRect<int>` (`TIntRect`, app/source/utils.h): a half-open
    rectangle [left, right) x [top, bottom). Every operation is also
    described by the set of points it covers. */
module Geometry {
  import opened IntMath

  datatype Point = Point(x: int, y: int)

  datatype Rect = Rect(left: int, top: int, right: int, bottom: int)

  /** A default-constructed rectangle: both corners at the origin. */
  const Zero := Rect(0, 0, 0, 0)

  predicate IsEmpty(r: Rect) { r.left >= r.right || r.top >= r.bottom }

  /** `Contains(point)`: the right and bottom edges are excluded. */
  predicate ContainsPoint(r: Rect, p: Point)
  {
    r.left <= p.x < r.right && r.top <= p.y < r.bottom
  }

  /** A rectangle is empty exactly when it covers no point. */
  lemma EmptyIffNoPoints(r: Rect)
    ensures IsEmpty(r) <==> forall p :: !ContainsPoint(r, p)
  {
    if !IsEmpty(r) {
      assert ContainsPoint(r, Point(r.left, r.top));
    }
  }

  /** `Intersection`: the default rectangle when either side is empty,
      otherwise the overlap, collapsed to the default rectangle when there
      is none. */
  function Intersection(a: Rect, b: Rect): (r: Rect)
    ensures IsEmpty(a) || IsEmpty(b) ==> r == Zero
    ensures IsEmpty(r) ==> r == Zero
    ensures forall p :: ContainsPoint(r, p) <==> ContainsPoint(a, p) && ContainsPoint(b, p)
  {
    if IsEmpty(a) || IsEmpty(b) then Zero
    else
      var r := Rect(Max(a.left, b.left), Max(a.top, b.top), Min(a.right, b.right), Min(a.bottom, b.bottom));
      if IsEmpty(r) then Zero else r
  }

  /** `Intersects`. */
  function Intersects(a: Rect, b: Rect): (res: bool)
    ensures res <==> !IsEmpty(Intersection(a, b))
  {
    if IsEmpty(a) then false
    else if IsEmpty(b) then false
    else if b.left >= a.right then false
    else if b.right <= a.left then false
    else if b.top >= a.bottom then false
    else if b.bottom <= a.top then false
    else true
  }

  /** Two rectangles intersect exactly when some point lies in both. */
  lemma IntersectsIffCommonPoint(a: Rect, b: Rect)
    ensures Intersects(a, b) <==> exists p :: ContainsPoint(a, p) && ContainsPoint(b, p)
  {
    var i := Intersection(a, b);
    EmptyIffNoPoints(i);
  }

  /** `Contains(rect)`: an empty needle is inside everything; otherwise an
      empty haystack holds nothing. */
  function ContainsRect(hay: Rect, needle: Rect): (res: bool)
    ensures IsEmpty(needle) ==> res
    ensures !IsEmpty(needle) && IsEmpty(hay) ==> !res
  {
    if IsEmpty(needle) then true
    else if IsEmpty(hay) then false
    else if needle.left < hay.left then false
    else if needle.right > hay.right then false
    else if needle.top < hay.top then false
    else if needle.bottom > hay.bottom then false
    else true
  }

  /** Containment of rectangles is containment of their point sets. */
  lemma ContainsRectIffPoints(hay: Rect, needle: Rect)
    ensures ContainsRect(hay, needle) <==> forall p :: ContainsPoint(needle, p) ==> ContainsPoint(hay, p)
  {
    if !IsEmpty(needle) && !ContainsRect(hay, needle) {
      var tl := Point(needle.left, needle.top);
      var br := Point(needle.right - 1, needle.bottom - 1);
      assert ContainsPoint(needle, tl) && ContainsPoint(needle, br);
      assert !ContainsPoint(hay, tl) || !ContainsPoint(hay, br);
    }
  }

  /** `Union`: empty operands are ignored; two non-empty ones give their
      bounding box. */
  function Union(a: Rect, b: Rect): (r: Rect)
    ensures IsEmpty(a) && IsEmpty(b) ==> r == Zero
    ensures IsEmpty(b) && !IsEmpty(a) ==> r == a
    ensures IsEmpty(a) && !IsEmpty(b) ==> r == b
    ensures ContainsRect(r, a) && ContainsRect(r, b)
    ensures !IsEmpty(a) && !IsEmpty(b) ==>
      forall c :: ContainsRect(c, a) && ContainsRect(c, b) ==> ContainsRect(c, r)
  {
    if IsEmpty(b) then (if IsEmpty(a) then Zero else a)
    else if IsEmpty(a) then b
    else Rect(Min(a.left, b.left), Min(a.top, b.top), Max(a.right, b.right), Max(a.bottom, b.bottom))
  }

  function Width(r: Rect): int { r.right - r.left }
  function Height(r: Rect): int { r.bottom - r.top }

  /** `MoveInside`: shift (never resize) the rectangle into the
      container; when it is too wide or too tall the left or top edge wins. */
  function MoveInside(r: Rect, container: Rect): (m: Rect)
    ensures Width(m) == Width(r) && Height(m) == Height(r)
    ensures Width(r) <= Width(container) ==> container.left <= m.left && m.right <= container.right
    ensures Width(r) > Width(container) ==> m.left == container.left
    ensures Height(r) <= Height(container) ==> container.top <= m.top && m.bottom <= container.bottom
    ensures Height(r) > Height(container) ==> m.top == container.top
    ensures !IsEmpty(r) && ContainsRect(container, r) ==> m == r
  {
    var dx1 := if r.right > container.right then r.right - container.right else 0;
    var r1 := Rect(r.left - dx1, r.top, r.right - dx1, r.bottom);
    var dx2 := if r1.left < container.left then container.left - r1.left else 0;
    var r2 := Rect(r1.left + dx2, r1.top, r1.right + dx2, r1.bottom);
    var dy1 := if r2.bottom > container.bottom then r2.bottom - container.bottom else 0;
    var r3 := Rect(r2.left, r2.top - dy1, r2.right, r2.bottom - dy1);
    var dy2 := if r3.top < container.top then container.top - r3.top else 0;
    Rect(r3.left, r3.top + dy2, r3.right, r3.bottom + dy2)
  }

  /** `Subtract`: up to four bands covering `a` minus `sub`: above the
      overlap, left of it, right of it, below it. */
  function Subtract(a: Rect, sub: Rect): (rs: seq<Rect>)
    ensures |rs| <= 4
    ensures IsEmpty(a) ==> rs == []
    ensures !IsEmpty(a) && !Intersects(a, sub) ==> rs == [a]
    ensures forall q :: q in rs ==> !IsEmpty(q) && ContainsRect(a, q) && !Intersects(q, sub)
  {
    var si := Intersection(a, sub);
    if IsEmpty(a) then []
    else if IsEmpty(si) then [a]
    else
      (if a.top < si.top then [Rect(a.left, a.top, a.right, si.top)] else [])
      + (if a.left < si.left then [Rect(a.left, si.top, si.left, si.bottom)] else [])
      + (if a.right > si.right then [Rect(si.right, si.top, a.right, si.bottom)] else [])
      + (if a.bottom > si.bottom then [Rect(a.left, si.bottom, a.right, a.bottom)] else [])
  }

  predicate InAny(rs: seq<Rect>, p: Point) { exists q :: q in rs && ContainsPoint(q, p) }

  /** The pieces of `Subtract` cover exactly the points of `a` outside
      `sub`. */
  lemma SubtractCoversDifference(a: Rect, sub: Rect, p: Point)
    ensures InAny(Subtract(a, sub), p) <==> ContainsPoint(a, p) && !ContainsPoint(sub, p)
  {
    var rs := Subtract(a, sub);
    var si := Intersection(a, sub);
    if InAny(rs, p) {
      var q :| q in rs && ContainsPoint(q, p);
      EmptyIffNoPoints(Intersection(q, sub));
      ContainsRectIffPoints(a, q);
    }
    if ContainsPoint(a, p) && !ContainsPoint(sub, p) && !IsEmpty(si) {
      var top := Rect(a.left, a.top, a.right, si.top);
      var left := Rect(a.left, si.top, si.left, si.bottom);
      var right := Rect(si.right, si.top, a.right, si.bottom);
      var bottom := Rect(a.left, si.bottom, a.right, a.bottom);
      assert !ContainsPoint(si, p);
      if p.y < si.top {
        assert top in rs && ContainsPoint(top, p);
      } else if p.y >= si.bottom {
        assert bottom in rs && ContainsPoint(bottom, p);
      } else if p.x < si.left {
        assert left in rs && ContainsPoint(left, p);
      } else {
        assert right in rs && ContainsPoint(right, p);
      }
    }
  }

  /** The pieces of `Subtract` do not overlap one another. */
  lemma SubtractPiecesDisjoint(a: Rect, sub: Rect)
    ensures var rs := Subtract(a, sub);
      forall i, j :: 0 <= i < j < |rs| ==> !Intersects(rs[i], rs[j])
  {
    var rs := Subtract(a, sub);
    var si := Intersection(a, sub);
    if !IsEmpty(a) && !IsEmpty(si) {
      var above := if a.top < si.top then [Rect(a.left, a.top, a.right, si.top)] else [];
      var left := if a.left < si.left then [Rect(a.left, si.top, si.left, si.bottom)] else [];
      var right := if a.right > si.right then [Rect(si.right, si.top, a.right, si.bottom)] else [];
      var below := if a.bottom > si.bottom then [Rect(a.left, si.bottom, a.right, a.bottom)] else [];
      assert rs == above + left + right + below;
      OrderedConcat(above, left);
      OrderedConcat(above + left, right);
      OrderedConcat(above + left + right, below);
      forall i, j | 0 <= i < j < |rs| ensures !Intersects(rs[i], rs[j]) {
        assert Apart(rs[i], rs[j]);
      }
    }
  }

  /** `b` lies wholly below or wholly to the right of `a`. */
  predicate Apart(a: Rect, b: Rect) { a.bottom <= b.top || a.right <= b.left }

  predicate Ordered(rs: seq<Rect>) { forall i, j :: 0 <= i < j < |rs| ==> Apart(rs[i], rs[j]) }

  lemma OrderedConcat(xs: seq<Rect>, ys: seq<Rect>)
    requires Ordered(xs) && Ordered(ys)
    requires forall x, y :: x in xs && y in ys ==> Apart(x, y)
    ensures Ordered(xs + ys)
  {
    var zs := xs + ys;
    forall i, j | 0 <= i < j < |zs| ensures Apart(zs[i], zs[j]) {
      if j < |xs| {
        assert zs[i] == xs[i] && zs[j] == xs[j];
      } else if i < |xs| {
        assert zs[i] in xs && zs[j] in ys;
      } else {
        assert zs[i] == ys[i - |xs|] && zs[j] == ys[j - |xs|];
      }
    }
  }

}
