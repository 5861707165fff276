/** Small numeric helpers (New/Shared/Maths.cs), over exact reals.
    Single-precision rounding is not modelled. */
module Maths {

  /** OpenTK's `Vector3`. */
  datatype V3 = V3(x: real, y: real, z: real) {
    function Plus(o: V3): V3 {
      V3(x + o.x, y + o.y, z + o.z)
    }

    function Minus(o: V3): V3 {
      V3(x - o.x, y - o.y, z - o.z)
    }

    function Times(k: real): V3 {
      V3(x * k, y * k, z * k)
    }

    function LengthSquared(): real {
      x * x + y * y + z * z
    }
  }

  const Zero: V3 := V3(0.0, 0.0, 0.0)

  /** C#'s float-to-int cast: truncation toward zero. */
  function Trunc(r: real): (n: int)
    ensures r >= 0.0 ==> n as real <= r < n as real + 1.0
    ensures r < 0.0 ==> n as real - 1.0 < r <= n as real
    ensures n == 0 <==> -1.0 < r < 1.0
  {
    if r >= 0.0 then r.Floor else -((-r).Floor)
  }

  /** C#'s `degrees % 360` on floats: the remainder keeps the sign of the
      dividend and stays strictly inside (-360, 360). */
  function TurnRem(degrees: real): (f: real)
    ensures -360.0 < f < 360.0
    ensures degrees >= 0.0 ==> f >= 0.0
    ensures degrees < 0.0 ==> f <= 0.0
    ensures WholeTurns(degrees - f)
  {
    var q := Trunc(degrees / 360.0);
    assert (degrees - (degrees - 360.0 * q as real)) / 360.0 == q as real;
    degrees - 360.0 * q as real
  }

  /** `x` is a whole number of 360-degree turns. */
  predicate WholeTurns(x: real) {
    (x / 360.0).Floor as real == x / 360.0
  }

  /** Negating a whole number of turns and adding `k` more keeps it whole. */
  lemma WholeTurnsShift(x: real, k: int)
    requires WholeTurns(x)
    ensures WholeTurns(360.0 * k as real - x)
  {
    var n := (x / 360.0).Floor;
    var y := 360.0 * k as real - x;
    assert y / 360.0 == (k - n) as real;
    assert ((k - n) as real).Floor == k - n;
  }

  /** `WrapDegrees`: an angle in [-180, 180) that differs from the input by a
      whole number of turns. */
  function WrapDegrees(degrees: real): (w: real)
    ensures -180.0 <= w < 180.0
    ensures WholeTurns(w - degrees)
  {
    var f := TurnRem(degrees);
    var k := if f >= 180.0 then -1 else if f < -180.0 then 1 else 0;
    WholeTurnsShift(degrees - f, k);
    f + 360.0 * k as real
  }

  /** `Lerp(start, end, delta)`: `start + (end - start) * delta`. */
  function Lerp(start: real, end: real, delta: real): real
  {
    start + (end - start) * delta
  }

  /** `Lerp` meets its endpoints at 0 and 1, is constant between equal
      endpoints, and stays between them for a delta in [0, 1]. */
  lemma LerpProperties(start: real, end: real, delta: real)
    ensures Lerp(start, end, 0.0) == start
    ensures Lerp(start, end, 1.0) == end
    ensures Lerp(start, start, delta) == start
    ensures 0.0 <= delta <= 1.0 ==> Between(Lerp(start, end, delta), start, end)
  {
    MulZero(end - start);
    MulZero(delta);
    assert start - start == 0.0;
    LerpBetween(start, end, delta);
  }

  lemma LerpBetween(start: real, end: real, delta: real)
    ensures 0.0 <= delta <= 1.0 ==> Between(Lerp(start, end, delta), start, end)
  {
    if 0.0 <= delta <= 1.0 {
      var d := end - start;
      var p := d * delta;
      assert Lerp(start, end, delta) == start + p;
      if start <= end {
        MulUnitUp(d, delta);
      } else {
        MulUnitDown(d, delta);
      }
    }
  }

  /** `r` lies in the closed interval spanned by `a` and `b`. */
  predicate Between(r: real, a: real, b: real) {
    if a <= b then a <= r <= b else b <= r <= a
  }

  /** A product with a factor in [0, 1] lies between 0 and the other factor. */
  lemma MulUnitUp(a: real, t: real)
    requires 0.0 <= t <= 1.0 && a >= 0.0
    ensures 0.0 <= a * t <= a
  {
    assert a * (1.0 - t) >= 0.0;
    assert a * (1.0 - t) == a - a * t;
  }

  lemma MulUnitDown(a: real, t: real)
    requires 0.0 <= t <= 1.0 && a <= 0.0
    ensures a <= a * t <= 0.0
  {
    MulUnitUp(-a, t);
    assert (-a) * t == -(a * t);
  }

  function Min(a: int, b: int): int {
    if a < b then a else b
  }

  function Max(a: int, b: int): int {
    if a < b then b else a
  }

  /** `Clamp(ref val, start, end)`: `Min(Max(val, start), end)`, so an empty
      range yields `end`. */
  function Clamp(val: int, start: int, end: int): (r: int)
    ensures start <= end ==> start <= r <= end
    ensures start <= val <= end ==> r == val
    ensures start > end ==> r == end
    ensures val < start <= end ==> r == start
    ensures start <= end < val ==> r == end
  {
    Min(Max(val, start), end)
  }

  /** OpenTK's `MathHelper.Clamp` on reals: `Max(Min(n, max), min)`, so an
      empty range yields `min`. */
  function ClampReal(val: real, lo: real, hi: real): (r: real)
    ensures lo <= hi ==> lo <= r <= hi
    ensures lo <= val <= hi ==> r == val
    ensures lo > hi ==> r == lo
  {
    var m := if val < hi then val else hi;
    if m > lo then m else lo
  }

  /** `MathF.Abs`. */
  function Abs(r: real): (a: real)
    ensures a >= 0.0 && (a == r || a == -r)
  {
    if r < 0.0 then -r else r
  }

  /** `CalcAngle(v, h)`: the angle of the vector `(h, v)` in degrees, that
      is `atan2(v, h)` converted to degrees; the arc tangent is the
      parameter `atan2Deg`. `CalcAngleXz` measures from `eye` to `target`
      in the horizontal plane. */
  function CalcAngle(atan2Deg: (real, real) -> real, v: real, h: real): real {
    atan2Deg(v, h)
  }

  function Dot(a: V3, b: V3): real
  {
    a.x * b.x + a.y * b.y + a.z * b.z
  }

  function Cross(a: V3, b: V3): V3
  {
    V3(a.y * b.z - a.z * b.y, a.z * b.x - a.x * b.z, a.x * b.y - a.y * b.x)
  }

  lemma MulZero(u: real)
    ensures u * 0.0 == 0.0 && 0.0 * u == 0.0
  {
  }

  /** `u * d`, kept as a named product so that bounds proved about it are
      used as they stand. */
  function Scale(u: real, d: real): real {
    u * d
  }

  /** A factor in [0, 1) scales a positive `d` into [0, d). */
  lemma ScaleUnit(u: real, d: real)
    requires 0.0 <= u < 1.0 && d > 0.0
    ensures 0.0 <= Scale(u, d) < d
  {
    MulLe(d, 0.0, u);
    MulLt(d, u, 1.0);
  }

  lemma ScaleZero(u: real)
    ensures Scale(u, 0.0) == 0.0
  {
    MulZero(u);
  }

  /** Scaling by a positive factor preserves order. */
  lemma MulLe(b: real, x: real, y: real)
    requires b > 0.0 && x <= y
    ensures x * b <= y * b
  {
  }

  lemma MulLt(b: real, x: real, y: real)
    requires b > 0.0 && x < y
    ensures x * b < y * b
  {
  }

  /** The cross product is orthogonal to both arguments. */
  lemma CrossOrthogonal(a: V3, b: V3)
    ensures Dot(Cross(a, b), a) == 0.0 && Dot(Cross(a, b), b) == 0.0
  {
  }
}
