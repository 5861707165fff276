/** `MeshCollision<T>.RayCollides` (New/Shared/Components/MeshCollision.cs):
    the as-written ray test of `Collision` run over a mesh's triangle
    records, resolved against its vertex array. Both arrays are scanned whole, including the
    unused slots past their counts. */
module MeshCollisions {
  import opened Wrappers
  import opened Maths
  import opened Collision
  import opened Meshes

  /** `verts[tri.ItemK].Pos` for the three corners; an index outside the
      vertex array throws. */
  function Resolve(verts: seq<V3>, t: TriIndex): (r: Result<Triangle>)
    ensures r.Ok? <==> InRange(verts, t)
    ensures r.Ok? ==> r.value == Triangle(verts[t.0], verts[t.1], verts[t.2])
  {
    if InRange(verts, t) then Ok(Triangle(verts[t.0], verts[t.1], verts[t.2]))
    else Err("IndexOutOfRangeException")
  }

  predicate InRange(verts: seq<V3>, t: TriIndex) {
    0 <= t.0 < |verts| && 0 <= t.1 < |verts| && 0 <= t.2 < |verts|
  }

  /** The scan loop: records in order, the first accepted triangle decides;
      an unresolvable record met before any hit throws. */
  function Scan(tris: seq<TriIndex>, verts: seq<V3>, offset: V3, ro: V3, rd: V3): Result<(bool, real)>
    decreases |tris|
  {
    if |tris| == 0 then Ok((false, FloatMax))
    else match Resolve(verts, tris[0])
      case Err(e) => Err(e)
      case Ok(tri) =>
        match HitAsWritten(tri.Translate(offset), ro, rd)
        case Some(t) => Ok((true, t))
        case None => Scan(tris[1..], verts, offset, ro, rd)
  }

  /** `RayCollides(offset, ro, rd, out dist)` on a mesh: the whole backing
      array of `Tris` against the whole `Vertices` array. */
  function MeshRayCollides(m: Mesh, offset: V3, ro: V3, rd: V3): Result<(bool, real)> {
    Scan(m.tris.items, m.vbo.vertices, offset, ro, rd)
  }

  /** The triangles of records that all resolve. */
  function ResolveAll(verts: seq<V3>, tris: seq<TriIndex>): (r: seq<Triangle>)
    requires forall i | 0 <= i < |tris| :: InRange(verts, tris[i])
    ensures |r| == |tris|
    ensures forall i | 0 <= i < |tris| :: r[i] == Resolve(verts, tris[i]).value
  {
    seq(|tris|, i requires 0 <= i < |tris| => Resolve(verts, tris[i]).value)
  }

  /** When every record resolves, the scan is exactly the triangle-list test:
      a hit reports the first accepted triangle's distance, a miss
      `float.MaxValue`. */
  lemma {:induction false} ScanIsRayCollides(tris: seq<TriIndex>, verts: seq<V3>, offset: V3, ro: V3, rd: V3)
    requires forall i | 0 <= i < |tris| :: InRange(verts, tris[i])
    ensures Scan(tris, verts, offset, ro, rd) == Ok(RayCollides(ResolveAll(verts, tris), offset, ro, rd))
    decreases |tris|
  {
    if |tris| > 0 {
      var all := ResolveAll(verts, tris);
      if HitAsWritten(all[0].Translate(offset), ro, rd).None? {
        ScanIsRayCollides(tris[1..], verts, offset, ro, rd);
        assert ResolveAll(verts, tris[1..]) == all[1..];
        assert FirstHit(all, offset, ro, rd).None? <==> FirstHit(all[1..], offset, ro, rd).None?;
      }
    }
  }

  /** An unused default record `(0, 0, 0)` names one vertex three times, so
      over a non-empty vertex array it is a degenerate triangle that no ray
      hits. */
  lemma DefaultRecordNeverHits(verts: seq<V3>, offset: V3, ro: V3, rd: V3)
    requires |verts| > 0
    ensures Resolve(verts, NoTri).Ok?
    ensures HitAsWritten(Resolve(verts, NoTri).value.Translate(offset), ro, rd).None?
  {
    var p := verts[0].Plus(offset);
    assert Resolve(verts, NoTri).value.Translate(offset) == Triangle(p, p, p);
    DegenerateNeverHit(p, ro, rd);
  }

  /** `k` default records, as a grown array holds past its count. */
  function Defaults(k: nat): (r: seq<TriIndex>)
    ensures |r| == k && forall i | 0 <= i < k :: r[i] == NoTri
  {
    if k == 0 then [] else [NoTri] + Defaults(k - 1)
  }

  /** A record that resolves to a missed triangle passes the scan on. */
  lemma ScanMissHead(tris: seq<TriIndex>, verts: seq<V3>, offset: V3, ro: V3, rd: V3)
    requires |tris| > 0 && Resolve(verts, tris[0]).Ok?
    requires HitAsWritten(Resolve(verts, tris[0]).value.Translate(offset), ro, rd).None?
    ensures Scan(tris, verts, offset, ro, rd) == Scan(tris[1..], verts, offset, ro, rd)
  {
  }

  /** A default record at the head passes the scan on. */
  lemma ScanDefaultHead(tris: seq<TriIndex>, verts: seq<V3>, offset: V3, ro: V3, rd: V3)
    requires |tris| > 0 && tris[0] == NoTri && |verts| > 0
    ensures Scan(tris, verts, offset, ro, rd) == Scan(tris[1..], verts, offset, ro, rd)
  {
    DefaultRecordNeverHits(verts, offset, ro, rd);
    ScanMissHead(tris, verts, offset, ro, rd);
  }

  lemma DefaultHeadPasses(k: nat, verts: seq<V3>, offset: V3, ro: V3, rd: V3)
    requires k > 0 && |verts| > 0
    ensures Scan(Defaults(k), verts, offset, ro, rd) == Scan(Defaults(k - 1), verts, offset, ro, rd)
  {
    var tris := Defaults(k);
    assert tris[0] == NoTri && tris[1..] == Defaults(k - 1);
    ScanDefaultHead(tris, verts, offset, ro, rd);
  }

  /** A run of default records misses. */
  lemma {:induction false} DefaultRecordsMiss(k: nat, verts: seq<V3>, offset: V3, ro: V3, rd: V3)
    requires |verts| > 0
    ensures Scan(Defaults(k), verts, offset, ro, rd) == Ok((false, FloatMax))
    decreases k
  {
    if k > 0 {
      DefaultHeadPasses(k, verts, offset, ro, rd);
      DefaultRecordsMiss(k - 1, verts, offset, ro, rd);
    }
  }

  /** Default records after the live ones never change the answer. */
  lemma {:induction false} SpareRecordsNeverHit(live: seq<TriIndex>, k: nat, verts: seq<V3>, offset: V3, ro: V3, rd: V3)
    requires |verts| > 0
    ensures Scan(live + Defaults(k), verts, offset, ro, rd) == Scan(live, verts, offset, ro, rd)
    decreases |live|
  {
    var tris := live + Defaults(k);
    if |live| > 0 {
      assert tris[0] == live[0];
      assert tris[1..] == live[1..] + Defaults(k);
      SpareRecordsNeverHit(live[1..], k, verts, offset, ro, rd);
    } else {
      assert tris == Defaults(k);
      DefaultRecordsMiss(k, verts, offset, ro, rd);
    }
  }

  /** A mesh whose triangle array holds resolvable records followed by
      unused default ones answers exactly as the triangle-list test over the
      resolved records. */
  lemma MeshRayCollidesLive(m: Mesh, live: seq<TriIndex>, k: nat, offset: V3, ro: V3, rd: V3)
    requires m.tris.items == live + Defaults(k) && |m.vbo.vertices| > 0
    requires forall i | 0 <= i < |live| :: InRange(m.vbo.vertices, live[i])
    ensures MeshRayCollides(m, offset, ro, rd) == Ok(RayCollides(ResolveAll(m.vbo.vertices, live), offset, ro, rd))
  {
    SpareRecordsNeverHit(live, k, m.vbo.vertices, offset, ro, rd);
    ScanIsRayCollides(live, m.vbo.vertices, offset, ro, rd);
  }

  /** With no vertices at all, the first record cannot resolve. */
  lemma EmptyVerticesThrow(tris: seq<TriIndex>, offset: V3, ro: V3, rd: V3)
    requires |tris| > 0
    ensures Scan(tris, [], offset, ro, rd).Err?
  {
  }
}
