/** `THysteresis` (app/source/utils.h): an accumulator for rotary-encoder
    steps that reports whole multiples of `reduction` once the sum leaves
    the dead band [-hyst, hyst]. */
module Hysteresis {
  import opened IntMath

  datatype Hysteresis = Hysteresis(hyst: int, reduction: int, value: int)

  function Make(hyst: int, reduction: int): (h: Hysteresis)
    ensures h.hyst == hyst && h.reduction == reduction && h.value == 0
  {
    Hysteresis(hyst, reduction, 0)
  }

  /** `Update`: returns the new state and the number of reduced steps. The
      division is C++ division, truncating toward zero; a zero reduction
      divides by zero in the source, hence the precondition. */
  function Update(h: Hysteresis, delta: int): (r: (Hysteresis, int))
    requires h.reduction > 0
    ensures r.0.hyst == h.hyst && r.0.reduction == h.reduction
    ensures r.0.value + r.1 * h.reduction == h.value + delta
    ensures -h.hyst <= h.value + delta <= h.hyst ==> r == (h.(value := h.value + delta), 0)
    ensures h.value + delta > h.hyst ==> r.1 >= 0 && h.hyst <= r.0.value < h.hyst + h.reduction
    ensures h.hyst >= h.value + delta && h.value + delta < -h.hyst ==> r.1 <= 0 && -h.hyst - h.reduction < r.0.value <= -h.hyst
  {
    var v := h.value + delta;
    if v > h.hyst then
      var reduced := CDiv(v - h.hyst, h.reduction);
      (h.(value := v - reduced * h.reduction), reduced)
    else if v < -h.hyst then
      var reduced := CDiv(v + h.hyst, h.reduction);
      (h.(value := v - reduced * h.reduction), reduced)
    else (h.(value := v), 0)
  }

  /** With a non-negative dead band the accumulator never strays further
      than one reduction beyond it, whatever came before. */
  lemma UpdateBoundsAccumulator(h: Hysteresis, delta: int)
    requires h.reduction > 0 && h.hyst >= 0
    requires -h.hyst - h.reduction < h.value < h.hyst + h.reduction
    requires -h.reduction < delta < h.reduction
    ensures var h' := Update(h, delta).0;
      -h.hyst - h.reduction < h'.value < h.hyst + h.reduction
  {
  }

  /** The instance with no dead band and reduction 1 passes every step
      straight through. */
  lemma PassThrough(delta: int)
    ensures Update(Make(0, 1), delta) == (Make(0, 1), delta)
  {
  }

  /** Feeding a sequence of deltas: the final state and the sum of all
      reported steps. */
  function Feed(h: Hysteresis, deltas: seq<int>): (r: (Hysteresis, int))
    requires h.reduction > 0
    ensures r.0.hyst == h.hyst && r.0.reduction == h.reduction
    decreases |deltas|
  {
    if |deltas| == 0 then (h, 0)
    else
      var first := Update(h, deltas[0]);
      var rest := Feed(first.0, deltas[1..]);
      (rest.0, first.1 + rest.1)
  }

  function Sum(xs: seq<int>): int
  {
    if |xs| == 0 then 0 else xs[0] + Sum(xs[1..])
  }

  /** No step is lost: what is reported plus what is still held equals
      what was fed in. */
  lemma {:induction false} FeedConserves(h: Hysteresis, deltas: seq<int>)
    requires h.reduction > 0
    ensures var r := Feed(h, deltas);
      r.0.value + r.1 * h.reduction == h.value + Sum(deltas)
    decreases |deltas|
  {
    if |deltas| > 0 {
      var first := Update(h, deltas[0]);
      var rest := Feed(first.0, deltas[1..]);
      FeedConserves(first.0, deltas[1..]);
      assert Feed(h, deltas) == (rest.0, first.1 + rest.1);
      Combine(h.value, first.0.value, rest.0.value, deltas[0], Sum(deltas[1..]), first.1, rest.1, h.reduction);
    }
  }

  /** Two conserving steps make one. */
  lemma Combine(v0: int, v1: int, v2: int, d0: int, d1: int, a: int, b: int, red: int)
    requires v1 + a * red == v0 + d0
    requires v2 + b * red == v1 + d1
    ensures v2 + (a + b) * red == v0 + (d0 + d1)
  {
    assert (a + b) * red == a * red + b * red;
  }
}
