/**
 * The part of JavaScript number semantics the order-book code relies on:
 * exact reals extended with the two infinities that `Math.min()` and
 * `Math.max()` return for an empty argument list, and `Math.round`.
 * Binary floating point itself is not modelled.
 */
module Numbers {

  /** A real number or one of the two infinities. */
  datatype Extended = NegInf | Fin(v: real) | PosInf

  /** `Math.min(...xs)`: the least element, or +Infinity for no elements. */
  function Min(xs: seq<real>): (m: Extended)
    ensures m != NegInf
    ensures m == PosInf <==> |xs| == 0
    ensures m.Fin? ==> m.v in xs && forall x :: x in xs ==> m.v <= x
  {
    if |xs| == 0 then PosInf
    else
      assert forall x :: x in xs ==> x == xs[0] || x in xs[1..];
      var rest := Min(xs[1..]);
      if rest.Fin? && rest.v < xs[0] then rest else Fin(xs[0])
  }

  /** `Math.max(...xs)`: the greatest element, or -Infinity for no elements. */
  function Max(xs: seq<real>): (m: Extended)
    ensures m != PosInf
    ensures m == NegInf <==> |xs| == 0
    ensures m.Fin? ==> m.v in xs && forall x :: x in xs ==> x <= m.v
  {
    if |xs| == 0 then NegInf
    else
      assert forall x :: x in xs ==> x == xs[0] || x in xs[1..];
      var rest := Max(xs[1..]);
      if rest.Fin? && xs[0] < rest.v then rest else Fin(xs[0])
  }

  /** `Math.pow(10, d)` for a non-negative integer exponent. */
  function Pow10(d: nat): (p: real)
    ensures p >= 1.0
  {
    if d == 0 then 1.0 else 10.0 * Pow10(d - 1)
  }

  /** `Math.round(y)`: the nearest integer, a half rounded towards +Infinity. */
  function Round(y: real): (n: int)
    ensures n as real - 0.5 <= y < n as real + 0.5
  {
    (y + 0.5).Floor
  }

  /** `x * Math.pow(10, d)`: `x` counted in units of `10^-d`. */
  function Shift(x: real, d: nat): real
  {
    x * Pow10(d)
  }

  /** `Math.round(x * 10^d) / 10^d`: `x` rounded to `d` decimal places. */
  function RoundTo(x: real, d: nat): (r: real)
    ensures Shift(r, d).Floor as real == Shift(r, d)
  {
    var n := Round(Shift(x, d));
    assert Shift(n as real / Pow10(d), d) == n as real;
    n as real / Pow10(d)
  }

  /** An integer is left alone by `Round`. */
  lemma RoundOfInteger(n: int)
    ensures Round(n as real) == n
  {
  }

  /**
   * A price already on the `10^-d` grid rounds to itself, so a bin key
   * rounds to the bin it names.
   */
  lemma {:induction false} RoundToIdempotent(x: real, d: nat)
    ensures RoundTo(RoundTo(x, d), d) == RoundTo(x, d)
  {
    var p := Pow10(d);
    var n := Round(Shift(x, d));
    assert RoundTo(x, d) == n as real / p;
    assert Shift(n as real / p, d) == n as real;
    RoundOfInteger(n);
  }

  /** A quotient by a positive number keeps the sign of the dividend. */
  lemma DivSign(u: real, p: real)
    requires p > 0.0
    ensures u >= 0.0 ==> u / p >= 0.0
    ensures u > 0.0 ==> u / p > 0.0
  {
    assert (u / p) * p == u;
  }

  /** Dividing `a - 0.5 <= y * p < a + 0.5` through by a positive `p`. */
  lemma ScaleDown(a: real, y: real, p: real)
    requires p > 0.0
    requires a - 0.5 <= y * p < a + 0.5
    ensures y - 0.5 / p < a / p <= y + 0.5 / p
  {
    assert a / p - 0.5 / p == (a - 0.5) / p;
    assert a / p + 0.5 / p == (a + 0.5) / p;
    assert (y * p) / p == y;
    assert y - (a - 0.5) / p == (y * p - (a - 0.5)) / p;
    assert (a + 0.5) / p - y == ((a + 0.5) - y * p) / p;
    DivSign(y * p - (a - 0.5), p);
    DivSign((a + 0.5) - y * p, p);
  }

  /** `RoundTo` moves a price by at most half a unit of the last decimal. */
  lemma {:induction false} RoundToIsNearest(x: real, d: nat)
    ensures x - 0.5 / Pow10(d) < RoundTo(x, d) <= x + 0.5 / Pow10(d)
  {
    var n := Round(Shift(x, d));
    ScaleDown(n as real, x, Pow10(d));
  }
}
