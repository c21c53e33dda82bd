/** Integer helpers that make the C++ integer semantics explicit.
    Dafny's `/` and `%` are Euclidean; C++ truncates toward zero, and
    `x & 0xf` on a two's-complement `int` is the floor remainder. */
module IntMath {

  /** An unsigned 8-bit value, the model of every byte on the wire. */
  type Byte = b: int | 0 <= b < 256

  /** `std::clamp(v, lo, hi)`. */
  function Clamp(v: int, lo: int, hi: int): (r: int)
    requires lo <= hi
    ensures lo <= r <= hi
    ensures lo <= v <= hi ==> r == v
    ensures v < lo ==> r == lo
    ensures v > hi ==> r == hi
  {
    if v < lo then lo else if v > hi then hi else v
  }

  function Min(a: int, b: int): int { if a <= b then a else b }
  function Max(a: int, b: int): int { if a >= b then a else b }

  function Abs(x: int): nat { if x < 0 then -x else x }

  /** C++ `a / b` for a positive divisor: the quotient truncated toward
      zero, so the remainder takes the sign of `a`. */
  function CDiv(a: int, b: int): (q: int)
    requires b > 0
    ensures a >= 0 ==> 0 <= a - q * b < b
    ensures a < 0 ==> -b < a - q * b <= 0
    ensures a >= 0 ==> q >= 0
    ensures a <= 0 ==> q <= 0
  {
    if a >= 0 then a / b
    else
      var p := (-a) / b;
      assert 0 <= (-a) - p * b < b;
      -p
  }

  /** `x & ~1`: round down to an even number (also for negative x). */
  function EvenFloor(x: int): (r: int)
    ensures r % 2 == 0
    ensures r <= x < r + 2
  {
    x - x % 2
  }

  /** Reinterpretation of a byte as a C++ `signed char`. */
  function SignedChar(b: Byte): (r: int)
    ensures -128 <= r < 128
    ensures (r - b) % 256 == 0
  {
    if b < 128 then b else b - 256
  }

  /** Division with remainder has only one answer. */
  lemma ModUnique(x: int, n: int, q: int, rem: int)
    requires n > 0 && x == q * n + rem && 0 <= rem < n
    ensures x / n == q && x % n == rem
  {
    var q0 := x / n;
    var r0 := x % n;
    assert q0 * n + r0 == q * n + rem;
    if q0 > q {
      assert q0 * n == (q0 - q) * n + q * n;
      MulAtLeast(q0 - q, n);
    } else if q0 < q {
      assert q * n == (q - q0) * n + q0 * n;
      MulAtLeast(q - q0, n);
    }
  }

  /** Multiplying by a positive number keeps the order. */
  lemma MulStrictOrder(a: int, b: int, n: int)
    requires n > 0
    ensures a < b <==> a * n < b * n
  {
    if a < b {
      assert b * n == (b - a) * n + a * n;
      MulAtLeast(b - a, n);
    } else {
      assert a * n == (a - b) * n + b * n;
      MulNonNegative(a - b, n);
    }
  }

  lemma MulAtLeast(a: int, n: int)
    requires a >= 1 && n > 0
    ensures a * n >= n
  {
    assert a * n == (a - 1) * n + n;
    MulNonNegative(a - 1, n);
  }

  lemma MulNonNegative(a: int, n: int)
    requires a >= 0 && n >= 0
    ensures a * n >= 0
  {
  }
}
