/** `HitResult` (New/Shared/Worlds/HitResult.cs): what a ray cast hit. The
    entity is a reference into the entity heap and the chunk is named by
    its key in the chunk cache. */
module HitResults {
  import opened Wrappers
  import opened Maths

  /** `HitResultType`. */
  datatype HitType = NoHit | EntityHit | TileHit

  datatype HitResult = HitResult(hit: V3, kind: HitType, entity: Option<nat>, chunk: Option<(int, int)>, distance: real)

  /** The constructor as written: every argument is stored except `dist`,
      so `Distance` keeps the default `0`. */
  function NewHitResultAsWritten(kind: HitType, dist: real, hitX: real, hitY: real, hitZ: real,
                                 entity: Option<nat>, chunk: Option<(int, int)>): (h: HitResult)
    ensures h.hit == V3(hitX, hitY, hitZ) && h.kind == kind && h.entity == entity && h.chunk == chunk
    ensures h.distance == 0.0
  {
    HitResult(V3(hitX, hitY, hitZ), kind, entity, chunk, 0.0)
  }

  /** The constructor with `Distance` stored, as the field and the
      parameter evidently intend. */
  function NewHitResult(kind: HitType, dist: real, hitX: real, hitY: real, hitZ: real,
                        entity: Option<nat>, chunk: Option<(int, int)>): (h: HitResult)
    ensures h.hit == V3(hitX, hitY, hitZ) && h.kind == kind && h.entity == entity && h.chunk == chunk
    ensures h.distance == dist
  {
    HitResult(V3(hitX, hitY, hitZ), kind, entity, chunk, dist)
  }

  /** `new HitResult()`: no hit, at the origin, with no references. */
  const NoHitResult: HitResult := NewHitResultAsWritten(NoHit, 0.0, 0.0, 0.0, 0.0, None, None)

  /** The two constructors agree on every field but `Distance`; as written,
      a hit at distance 3 reports distance 0. */
  lemma {:induction false} DistanceLost(kind: HitType, dist: real, x: real, y: real, z: real,
                                        entity: Option<nat>, chunk: Option<(int, int)>)
    ensures NewHitResultAsWritten(kind, dist, x, y, z, entity, chunk)
      == NewHitResult(kind, dist, x, y, z, entity, chunk).(distance := 0.0)
    ensures NewHitResultAsWritten(EntityHit, 3.0, x, y, z, entity, None).distance
      != NewHitResult(EntityHit, 3.0, x, y, z, entity, None).distance
  {
    var a := NewHitResultAsWritten(kind, dist, x, y, z, entity, chunk);
    var b := NewHitResult(kind, dist, x, y, z, entity, chunk);
    assert a.hit == b.hit && a.kind == b.kind && a.entity == b.entity && a.chunk == b.chunk;
  }
}
