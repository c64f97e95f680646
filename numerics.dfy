/**
  The C# integer and conversion semantics the terrain generator relies on,
  written out over Dafny's unbounded integers and exact reals.
  Dafny's `/` and `%` are Euclidean; C# truncates toward zero.
*/
module Numerics {

  const TwoTo31: int := 0x8000_0000
  const TwoTo32: int := 0x1_0000_0000

  /** C# `a / b` on `int` for a positive divisor: the quotient truncated toward zero. */
  function TruncDiv(a: int, b: int): (q: int)
    requires b > 0
    ensures 0 <= a ==> 0 <= a - q * b < b
    ensures a < 0 ==> -b < a - q * b <= 0
  {
    if a >= 0 then a / b else -((-a) / b)
  }

  /** C# `a % b` for a positive divisor: the remainder takes the sign of `a`.
      On integer-valued floats `%` (fmod) gives the same value. */
  function TruncMod(a: int, b: int): (r: int)
    requires b > 0
    ensures 0 <= a ==> 0 <= r < b
    ensures a < 0 ==> -b < r <= 0
    ensures (a - r) % b == 0
    ensures r == 0 <==> a % b == 0
  {
    MultipleMod(TruncDiv(a, b), b);
    TruncRemainderZero(a, b, TruncDiv(a, b));
    a - TruncDiv(a, b) * b
  }

  /** A remainder strictly between `-b` and `b` of `a` by `q` is zero
      exactly when `b` divides `a`. */
  lemma TruncRemainderZero(a: int, b: int, q: int)
    requires b > 0 && -b < a - q * b < b
    ensures a - q * b == 0 <==> a % b == 0
  {
    var r := a - q * b;
    if r > 0 {
      DivModUnique(a, b, q, r);
    } else if r < 0 {
      assert a == (q - 1) * b + (r + b);
      DivModUnique(a, b, q - 1, r + b);
    } else {
      MultipleMod(q, b);
    }
  }

  /** Euclidean quotient and remainder are the only pair with `0 <= r < b`. */
  lemma DivModUnique(a: int, b: int, q: int, r: int)
    requires b > 0 && 0 <= r < b && a == q * b + r
    ensures a / b == q && a % b == r
  {
    var d, m := a / b, a % b;
    assert (d - q) * b == r - m;
    assert d - q >= 1 ==> (d - q) * b >= b;
    assert d - q <= -1 ==> (d - q) * b <= -b;
  }

  /** A multiple of `b` leaves no Euclidean remainder. */
  lemma MultipleMod(q: int, b: int)
    requires b > 0
    ensures (q * b) % b == 0
  {
    DivModUnique(q * b, b, q, 0);
  }

  /** Stepping by `b` keeps the residue modulo `b`: `c = a + b` has the residue of `a`. */
  lemma ModStep(a: int, c: int, b: int)
    requires b > 0 && c == a + b
    ensures c % b == a % b
  {
    DivModUnique(c, b, a / b + 1, a % b);
  }

  /** The next lattice point below a positive multiple `d` of `b` is `d - b`, itself a multiple. */
  lemma LatticeNext(d: int, b: int)
    requires b > 0 && d > 0 && d % b == 0
    ensures d >= b && (d - b) % b == 0
  {
    var q := d / b;
    assert d == q * b;
    assert q <= 0 ==> q * b <= 0;
    assert q >= 1 ==> (q - 1) * b >= 0;
    MultipleMod(q - 1, b);
    assert d - b == (q - 1) * b;
  }

  /** The C# cast `(int)v` of a float or double: truncation toward zero. */
  function TruncReal(v: real): (i: int)
    ensures 0.0 <= v ==> 0 <= i && i as real <= v < i as real + 1.0
    ensures v < 0.0 ==> i <= 0 && i as real - 1.0 < v <= i as real
  {
    if v >= 0.0 then v.Floor else -((-v).Floor)
  }

  /** The unchecked C# cast `(int)u` of a `uint`: the `int` congruent to `u` modulo 2^32. */
  function UIntToInt(u: int): (i: int)
    requires 0 <= u < TwoTo32
    ensures -TwoTo31 <= i < TwoTo31
    ensures (u - i) % TwoTo32 == 0
    ensures u < TwoTo31 ==> i == u
  {
    if u < TwoTo31 then u else u - TwoTo32
  }
}
