/** Ray–triangle collision of `MeshCollision.RayCollides`
    (New/Shared/Components/MeshCollision.cs), the Möller–Trumbore test over
    exact reals. */
module Collision {
  import opened Wrappers
  import opened Maths

  /** A triangle given by its three corner positions. */
  datatype Triangle = Triangle(v0: V3, v1: V3, v2: V3) {
    function Translate(offset: V3): Triangle {
      Triangle(v0.Plus(offset), v1.Plus(offset), v2.Plus(offset))
    }
  }

  /** The parallel-ray threshold and the minimal hit distance (`0.00001f`). */
  const Epsilon: real := 0.00001

  /** `float.MaxValue`, reported as the distance of a miss. */
  const FloatMax: real := 340282346638528859811704183484516925440.0

  /** The quantities one Möller–Trumbore step computes for a triangle. */
  datatype Solve = Solve(a: real, u: real, v: real, t: real)

  /** `a = e1 · (rd × e2)`; when it is not near zero, `u`, `v` and `t` are
      the barycentric coordinates and the ray distance, each scaled by
      `1 / a`. */
  function Solve3(tri: Triangle, ro: V3, rd: V3): Solve
  {
    var e1 := tri.v1.Minus(tri.v0);
    var e2 := tri.v2.Minus(tri.v0);
    var h := Cross(rd, e2);
    var s := ro.Minus(tri.v0);
    var q := Cross(s, e1);
    Scaled(Det(tri, rd), Dot(s, h), Dot(rd, q), Dot(q, e2))
  }

  /** The quantities divided by `a` (multiplied by `f = 1 / a`); a zero `a`
      is caught by the parallel test before they are used. */
  function Scaled(a: real, x: real, y: real, z: real): Solve {
    var f := if a == 0.0 then 0.0 else 1.0 / a;
    Solve(a, f * x, f * y, f * z)
  }

  /** `a = e1 · (rd × e2)`, zero exactly when the ray is parallel to the
      triangle's plane or the triangle is degenerate. */
  function Det(tri: Triangle, rd: V3): real {
    Dot(tri.v1.Minus(tri.v0), Cross(rd, tri.v2.Minus(tri.v0)))
  }

  predicate Parallel(a: real) {
    -Epsilon < a < Epsilon
  }

  /** The decision the source takes on the computed quantities: after the
      parallel test only `u ∈ [0, 1]` and `v ∈ [0, 1]` are checked, so the
      whole parallelogram spanned by the two edges is accepted. */
  function AcceptAsWritten(sv: Solve): (r: Option<real>)
    ensures r.Some? ==> r.value > Epsilon && r.value == sv.t
  {
    if Parallel(sv.a) then None
    else if sv.u < 0.0 || sv.u > 1.0 then None
    else if sv.v < 0.0 || sv.v > 1.0 then None
    else if !(sv.t > Epsilon) then None
    else Some(sv.t)
  }

  /** The evidently intended decision, which also rejects `u + v > 1`. */
  function Accept(sv: Solve): (r: Option<real>)
    ensures r.Some? ==> r.value > Epsilon && r.value == sv.t
    ensures r.Some? ==> AcceptAsWritten(sv) == r
    ensures r.None? && AcceptAsWritten(sv).Some? ==> sv.u + sv.v > 1.0
  {
    if Parallel(sv.a) then None
    else if sv.u < 0.0 || sv.u > 1.0 then None
    else if sv.v < 0.0 || sv.v > 1.0 || sv.u + sv.v > 1.0 then None
    else if !(sv.t > Epsilon) then None
    else Some(sv.t)
  }

  /** One triangle as the source tests it. */
  function HitAsWritten(tri: Triangle, ro: V3, rd: V3): Option<real>
  {
    AcceptAsWritten(Solve3(tri, ro, rd))
  }

  /** One triangle under the corrected test. */
  function Hit(tri: Triangle, ro: V3, rd: V3): Option<real>
  {
    Accept(Solve3(tri, ro, rd))
  }

  /** The point `v0 + u·e1 + v·e2` of the triangle's plane. */
  function PlanePoint(tri: Triangle, u: real, v: real): V3 {
    tri.v0.Plus(tri.v1.Minus(tri.v0).Times(u)).Plus(tri.v2.Minus(tri.v0).Times(v))
  }

  /** The point the ray reaches at distance `t`. */
  function RayPoint(ro: V3, rd: V3, t: real): V3 {
    ro.Plus(rd.Times(t))
  }

  /** Cramer's rule for one coordinate of `a·s = U·e1 + V·e2 − T·rd`. */
  lemma CramerX(e1x: real, e1y: real, e1z: real, e2x: real, e2y: real, e2z: real,
                rx: real, ry: real, rz: real, sx: real, sy: real, sz: real)
    ensures
      var hx := ry * e2z - rz * e2y; var hy := rz * e2x - rx * e2z; var hz := rx * e2y - ry * e2x;
      var qx := sy * e1z - sz * e1y; var qy := sz * e1x - sx * e1z; var qz := sx * e1y - sy * e1x;
      var a := e1x * hx + e1y * hy + e1z * hz;
      sx * a == e1x * (sx * hx + sy * hy + sz * hz) + e2x * (rx * qx + ry * qy + rz * qz)
        - rx * (qx * e2x + qy * e2y + qz * e2z)
  {
  }

  /** Dividing Cramer's equation by `a`. */
  lemma DivideOut(a: real, f: real, s: real, e1: real, uu: real, e2: real, vv: real, r: real, tt: real)
    requires f * a == 1.0
    requires s * a == e1 * uu + e2 * vv - r * tt
    ensures s == e1 * (f * uu) + e2 * (f * vv) - r * (f * tt)
  {
    calc {
      s;
      s * (f * a);
      (s * a) * f;
      (e1 * uu + e2 * vv - r * tt) * f;
      e1 * (f * uu) + e2 * (f * vv) - r * (f * tt);
    }
  }

  /** One coordinate of the ray meeting the plane, over plain reals. */
  lemma MeetsX(e1x: real, e1y: real, e1z: real, e2x: real, e2y: real, e2z: real,
               rx: real, ry: real, rz: real, sx: real, sy: real, sz: real, f: real)
    requires
      var hx := ry * e2z - rz * e2y; var hy := rz * e2x - rx * e2z; var hz := rx * e2y - ry * e2x;
      f * (e1x * hx + e1y * hy + e1z * hz) == 1.0
    ensures
      var hx := ry * e2z - rz * e2y; var hy := rz * e2x - rx * e2z; var hz := rx * e2y - ry * e2x;
      var qx := sy * e1z - sz * e1y; var qy := sz * e1x - sx * e1z; var qz := sx * e1y - sy * e1x;
      sx == e1x * (f * (sx * hx + sy * hy + sz * hz)) + e2x * (f * (rx * qx + ry * qy + rz * qz))
        - rx * (f * (qx * e2x + qy * e2y + qz * e2z))
  {
    var hx := ry * e2z - rz * e2y; var hy := rz * e2x - rx * e2z; var hz := rx * e2y - ry * e2x;
    var qx := sy * e1z - sz * e1y; var qy := sz * e1x - sx * e1z; var qz := sx * e1y - sy * e1x;
    CramerX(e1x, e1y, e1z, e2x, e2y, e2z, rx, ry, rz, sx, sy, sz);
    DivideOut(e1x * hx + e1y * hy + e1z * hz, f, sx, e1x, sx * hx + sy * hy + sz * hz,
      e2x, rx * qx + ry * qy + rz * qz, rx, qx * e2x + qy * e2y + qz * e2z);
  }

  /** The x coordinate of Cramer's rule divided by `a`, over vectors. */
  lemma MeetsXV(e1: V3, e2: V3, rd: V3, s: V3, f: real)
    requires f * Dot(e1, Cross(rd, e2)) == 1.0
    ensures s.x == e1.x * (f * Dot(s, Cross(rd, e2))) + e2.x * (f * Dot(rd, Cross(s, e1)))
      - rd.x * (f * Dot(Cross(s, e1), e2))
  {
    CrossParts(rd, e2);
    CrossParts(s, e1);
    MeetsX(e1.x, e1.y, e1.z, e2.x, e2.y, e2.z, rd.x, rd.y, rd.z, s.x, s.y, s.z, f);
  }

  /** The coordinates of a cross product and its dot products, spelled
      out. */
  lemma CrossParts(a: V3, b: V3)
    ensures Cross(a, b) == V3(a.y * b.z - a.z * b.y, a.z * b.x - a.x * b.z, a.x * b.y - a.y * b.x)
  {
  }

  /** The y coordinate: the x case on the coordinates taken in the cyclic
      order y, z, x, which leaves every dot and cross product unchanged. */
  lemma MeetsYV(e1: V3, e2: V3, rd: V3, s: V3, f: real)
    requires f * Dot(e1, Cross(rd, e2)) == 1.0
    ensures s.y == e1.y * (f * Dot(s, Cross(rd, e2))) + e2.y * (f * Dot(rd, Cross(s, e1)))
      - rd.y * (f * Dot(Cross(s, e1), e2))
  {
    CrossParts(rd, e2);
    CrossParts(s, e1);
    MeetsX(e1.y, e1.z, e1.x, e2.y, e2.z, e2.x, rd.y, rd.z, rd.x, s.y, s.z, s.x, f);
  }

  /** The z coordinate: the x case on the coordinates in the order z, x, y. */
  lemma MeetsZV(e1: V3, e2: V3, rd: V3, s: V3, f: real)
    requires f * Dot(e1, Cross(rd, e2)) == 1.0
    ensures s.z == e1.z * (f * Dot(s, Cross(rd, e2))) + e2.z * (f * Dot(rd, Cross(s, e1)))
      - rd.z * (f * Dot(Cross(s, e1), e2))
  {
    CrossParts(rd, e2);
    CrossParts(s, e1);
    MeetsX(e1.z, e1.x, e1.y, e2.z, e2.x, e2.y, rd.z, rd.x, rd.y, s.z, s.x, s.y, f);
  }

  /** Linear wrap-up: the three coordinate equations say the ray point equals
      the plane point. */
  lemma PointsAgree(tri: Triangle, ro: V3, rd: V3, u: real, v: real, t: real)
    requires var e1 := tri.v1.Minus(tri.v0); var e2 := tri.v2.Minus(tri.v0); var s := ro.Minus(tri.v0);
      s.x == e1.x * u + e2.x * v - rd.x * t
      && s.y == e1.y * u + e2.y * v - rd.y * t
      && s.z == e1.z * u + e2.z * v - rd.z * t
    ensures RayPoint(ro, rd, t) == PlanePoint(tri, u, v)
  {
  }

  /** Whenever the ray is not parallel to the triangle's plane, it meets the
      plane at distance `t`, at the plane point with coordinates `(u, v)`. */
  lemma {:induction false} SolveMeetsPlane(tri: Triangle, ro: V3, rd: V3)
    requires Solve3(tri, ro, rd).a != 0.0
    ensures var sv := Solve3(tri, ro, rd);
      RayPoint(ro, rd, sv.t) == PlanePoint(tri, sv.u, sv.v)
  {
    var sv := Solve3(tri, ro, rd);
    SolveX(tri, ro, rd);
    SolveY(tri, ro, rd);
    SolveZ(tri, ro, rd);
    PointsAgree(tri, ro, rd, sv.u, sv.v, sv.t);
  }

  /** The x coordinate of `s = u·e1 + v·e2 − t·rd` for the computed
      quantities. */
  lemma SolveX(tri: Triangle, ro: V3, rd: V3)
    requires Solve3(tri, ro, rd).a != 0.0
    ensures var sv := Solve3(tri, ro, rd);
      var e1 := tri.v1.Minus(tri.v0); var e2 := tri.v2.Minus(tri.v0); var s := ro.Minus(tri.v0);
      s.x == e1.x * sv.u + e2.x * sv.v - rd.x * sv.t
  {
    var sv := Solve3(tri, ro, rd);
    var f := if sv.a == 0.0 then 0.0 else 1.0 / sv.a;
    assert f * sv.a == 1.0;
    MeetsXV(tri.v1.Minus(tri.v0), tri.v2.Minus(tri.v0), rd, ro.Minus(tri.v0), f);
  }

  /** The y coordinate of `s = u·e1 + v·e2 − t·rd` for the computed
      quantities. */
  lemma SolveY(tri: Triangle, ro: V3, rd: V3)
    requires Solve3(tri, ro, rd).a != 0.0
    ensures var sv := Solve3(tri, ro, rd);
      var e1 := tri.v1.Minus(tri.v0); var e2 := tri.v2.Minus(tri.v0); var s := ro.Minus(tri.v0);
      s.y == e1.y * sv.u + e2.y * sv.v - rd.y * sv.t
  {
    var sv := Solve3(tri, ro, rd);
    var f := if sv.a == 0.0 then 0.0 else 1.0 / sv.a;
    assert f * sv.a == 1.0;
    MeetsYV(tri.v1.Minus(tri.v0), tri.v2.Minus(tri.v0), rd, ro.Minus(tri.v0), f);
  }

  /** The z coordinate of `s = u·e1 + v·e2 − t·rd` for the computed
      quantities. */
  lemma SolveZ(tri: Triangle, ro: V3, rd: V3)
    requires Solve3(tri, ro, rd).a != 0.0
    ensures var sv := Solve3(tri, ro, rd);
      var e1 := tri.v1.Minus(tri.v0); var e2 := tri.v2.Minus(tri.v0); var s := ro.Minus(tri.v0);
      s.z == e1.z * sv.u + e2.z * sv.v - rd.z * sv.t
  {
    var sv := Solve3(tri, ro, rd);
    var f := if sv.a == 0.0 then 0.0 else 1.0 / sv.a;
    assert f * sv.a == 1.0;
    MeetsZV(tri.v1.Minus(tri.v0), tri.v2.Minus(tri.v0), rd, ro.Minus(tri.v0), f);
  }

  /** What the test as written accepts: points of the parallelogram
      `v0 + u·e1 + v·e2` with `u, v ∈ [0, 1]`. */
  lemma HitAsWrittenInParallelogram(tri: Triangle, ro: V3, rd: V3)
    requires HitAsWritten(tri, ro, rd).Some?
    ensures var sv := Solve3(tri, ro, rd);
      0.0 <= sv.u <= 1.0 && 0.0 <= sv.v <= 1.0
      && RayPoint(ro, rd, sv.t) == PlanePoint(tri, sv.u, sv.v)
      && HitAsWritten(tri, ro, rd).value == sv.t
  {
    SolveMeetsPlane(tri, ro, rd);
  }

  /** The corrected test only reports points inside the triangle. */
  lemma HitInTriangle(tri: Triangle, ro: V3, rd: V3)
    requires Hit(tri, ro, rd).Some?
    ensures var sv := Solve3(tri, ro, rd);
      0.0 <= sv.u && 0.0 <= sv.v && sv.u + sv.v <= 1.0
      && RayPoint(ro, rd, sv.t) == PlanePoint(tri, sv.u, sv.v)
      && Hit(tri, ro, rd).value == sv.t
  {
    SolveMeetsPlane(tri, ro, rd);
  }

  /** The unit right triangle in the plane z = 0. */
  const UnitTriangle: Triangle := Triangle(V3(0.0, 0.0, 0.0), V3(1.0, 0.0, 0.0), V3(0.0, 1.0, 0.0))

  /** The Möller–Trumbore quantities of the ray straight down through
      (0.8, 0.8) from height 1 onto the unit triangle: no scaling, `u` and
      `v` are the point's coordinates and `t` the height. */
  lemma SolveOutsidePoint()
    ensures Solve3(UnitTriangle, V3(0.8, 0.8, 1.0), V3(0.0, 0.0, -1.0)) == Solve(1.0, 0.8, 0.8, 1.0)
  {
    var e1 := V3(1.0, 0.0, 0.0);
    var e2 := V3(0.0, 1.0, 0.0);
    var s := V3(0.8, 0.8, 1.0);
    var rd := V3(0.0, 0.0, -1.0);
    UnitEdges();
    DownCrossY();
    PointCrossX();
    UnitDotX();
    PointDotX();
    DownDotQ();
    QDotY();
    SolveUnitDet(UnitTriangle, s, rd, e1, e2, s, 0.8, 0.8, 1.0);
  }

  lemma UnitEdges()
    ensures UnitTriangle.v1.Minus(UnitTriangle.v0) == V3(1.0, 0.0, 0.0)
    ensures UnitTriangle.v2.Minus(UnitTriangle.v0) == V3(0.0, 1.0, 0.0)
    ensures V3(0.8, 0.8, 1.0).Minus(UnitTriangle.v0) == V3(0.8, 0.8, 1.0)
  {
  }

  // The products `SolveOutsidePoint` needs, one per lemma.
  lemma DownCrossY()
    ensures Cross(V3(0.0, 0.0, -1.0), V3(0.0, 1.0, 0.0)) == V3(1.0, 0.0, 0.0)
  {
  }

  lemma PointCrossX()
    ensures Cross(V3(0.8, 0.8, 1.0), V3(1.0, 0.0, 0.0)) == V3(0.0, 1.0, -0.8)
  {
  }

  lemma UnitDotX()
    ensures Dot(V3(1.0, 0.0, 0.0), V3(1.0, 0.0, 0.0)) == 1.0
  {
  }

  lemma PointDotX()
    ensures Dot(V3(0.8, 0.8, 1.0), V3(1.0, 0.0, 0.0)) == 0.8
  {
  }

  lemma DownDotQ()
    ensures Dot(V3(0.0, 0.0, -1.0), V3(0.0, 1.0, -0.8)) == 0.8
  {
  }

  lemma QDotY()
    ensures Dot(V3(0.0, 1.0, -0.8), V3(0.0, 1.0, 0.0)) == 1.0
  {
  }

  /** With `a = 1` no scaling happens. */
  lemma SolveUnitDet(tri: Triangle, ro: V3, rd: V3, e1: V3, e2: V3, s: V3, u: real, v: real, t: real)
    requires tri.v1.Minus(tri.v0) == e1 && tri.v2.Minus(tri.v0) == e2 && ro.Minus(tri.v0) == s
    requires Dot(e1, Cross(rd, e2)) == 1.0
    requires Dot(s, Cross(rd, e2)) == u && Dot(rd, Cross(s, e1)) == v && Dot(Cross(s, e1), e2) == t
    ensures Solve3(tri, ro, rd) == Solve(1.0, u, v, t)
  {
    assert Scaled(1.0, u, v, t) == Solve(1.0, u, v, t);
  }

  /** The decisions on the quantities of a ray through (0.8, 0.8). */
  lemma AcceptOutside()
    ensures AcceptAsWritten(Solve(1.0, 0.8, 0.8, 1.0)) == Some(1.0)
    ensures Accept(Solve(1.0, 0.8, 0.8, 1.0)) == None
  {
  }

  /** A ray straight down through (0.8, 0.8) misses the unit triangle
      (0.8 + 0.8 > 1), yet the test as written reports a hit at distance 1. */
  lemma HitAsWrittenOutsideTriangle()
    ensures HitAsWritten(UnitTriangle, V3(0.8, 0.8, 1.0), V3(0.0, 0.0, -1.0)) == Some(1.0)
  {
    SolveOutsidePoint();
    AcceptOutside();
  }

  /** The corrected test rejects that ray. */
  lemma HitOutsideTriangle()
    ensures Hit(UnitTriangle, V3(0.8, 0.8, 1.0), V3(0.0, 0.0, -1.0)) == None
  {
    SolveOutsidePoint();
    AcceptOutside();
  }

  /** A degenerate triangle, such as a default (0, 0, 0) entry past the end of
      a triangle list, has a zero determinant for every ray. */
  lemma DegenerateDet(p: V3, rd: V3)
    ensures Det(Triangle(p, p, p), rd) == 0.0
  {
    assert p.Minus(p) == Zero;
    assert Dot(Zero, Cross(rd, Zero)) == 0.0;
  }

  /** A ray parallel to the plane, or a degenerate triangle, is never hit. */
  lemma ParallelNeverHit(tri: Triangle, ro: V3, rd: V3)
    requires Parallel(Det(tri, rd))
    ensures HitAsWritten(tri, ro, rd) == None
    ensures Hit(tri, ro, rd) == None
  {
    assert Solve3(tri, ro, rd).a == Det(tri, rd);
  }

  /** A triangle whose three corners coincide is hit by no ray. */
  lemma DegenerateNeverHit(p: V3, ro: V3, rd: V3)
    ensures HitAsWritten(Triangle(p, p, p), ro, rd) == None
    ensures Hit(Triangle(p, p, p), ro, rd) == None
  {
    DegenerateParallel(p, rd);
    ParallelNeverHit(Triangle(p, p, p), ro, rd);
  }

  lemma DegenerateParallel(p: V3, rd: V3)
    ensures Parallel(Det(Triangle(p, p, p), rd))
  {
    DegenerateDet(p, rd);
    ZeroParallel();
  }

  lemma ZeroParallel()
    ensures Parallel(0.0)
  {
  }

  /** Index of the first triangle, in order, that the source's test accepts. */
  function FirstHit(tris: seq<Triangle>, offset: V3, ro: V3, rd: V3): (r: Option<nat>)
    ensures r.Some? ==> r.value < |tris| && HitAsWritten(tris[r.value].Translate(offset), ro, rd).Some?
    ensures r.Some? ==> forall j :: 0 <= j < r.value ==> HitAsWritten(tris[j].Translate(offset), ro, rd).None?
    ensures r.None? ==> forall j :: 0 <= j < |tris| ==> HitAsWritten(tris[j].Translate(offset), ro, rd).None?
  {
    if |tris| == 0 then None
    else if HitAsWritten(tris[0].Translate(offset), ro, rd).Some? then Some(0)
    else match FirstHit(tris[1..], offset, ro, rd)
      case None => None
      case Some(k) => Some(k + 1)
  }

  /** `RayCollides(offset, ro, rd, out dist)`: the triangles, translated by
      `offset`, are scanned in order and the first accepted one decides the
      distance, which need not be the nearest; a miss reports `float.MaxValue`. */
  function RayCollides(tris: seq<Triangle>, offset: V3, ro: V3, rd: V3): (r: (bool, real))
    ensures !r.0 <==> FirstHit(tris, offset, ro, rd).None?
    ensures !r.0 ==> r.1 == FloatMax
    ensures r.0 ==> r.1 == HitAsWritten(tris[FirstHit(tris, offset, ro, rd).value].Translate(offset), ro, rd).value
    ensures r.0 ==> r.1 > Epsilon
  {
    match FirstHit(tris, offset, ro, rd)
    case None => (false, FloatMax)
    case Some(k) => (true, HitAsWritten(tris[k].Translate(offset), ro, rd).value)
  }

  /** An accepted first triangle decides the scan, however near the ray
      meets any later triangle. */
  lemma HeadDecides(tris: seq<Triangle>, offset: V3, ro: V3, rd: V3)
    requires |tris| > 0 && HitAsWritten(tris[0].Translate(offset), ro, rd).Some?
    ensures RayCollides(tris, offset, ro, rd) == (true, HitAsWritten(tris[0].Translate(offset), ro, rd).value)
  {
  }
}
