/** `World.Raycast` (New/Shared/Worlds/World.cs): the nearest thing a ray
    from the eye hits within reach, entities first, then the terrain of the
    3 x 3 chunks around the eye.

    Each phase tests its candidates in order, the entity phase the entries
    of `Objs`, the tile phase the nine chunk keys; a candidate offers a
    distance or nothing, and the phases differ only in how they break ties
    (`PickFirst`, `PickLast`). The
    meshes of `Model3D` models are loaded from files and are the parameter
    `meshes`. */
module Raycasts {
  import opened Wrappers
  import opened Maths
  import Vec
  import opened Components
  import opened Entities
  import Chunks
  import Extensions
  import Meshes
  import MeshCollisions
  import opened GameState
  import opened Worlds
  import opened HitResults

  /** `REACH`, `REACH_SQ = REACH * REACH`, and the distance the search
      starts from, just out of reach. */
  const Reach: real := 24.0
  const ReachSq: real := 576.0
  const StartDist: real := 24.5

  /** The search's local state: the best distance so far, the point hit
      there, the entity and the chunk last accepted, and the kind of hit. */
  datatype Search = Search(dist: real, at: V3, obj: Ref, chunk: Option<(int, int)>, kind: HitType)

  const Start: Search := Search(StartDist, Zero, None, None, NoHit)

  /** `eye + dir * d`. */
  function PointAt(eye: V3, dir: V3, d: real): V3 {
    eye.Plus(dir.Times(d))
  }

  /** A distance reported by a hit test, when it is within reach. */
  function InReach(res: (bool, real)): Option<real> {
    if !res.0 || res.1 > Reach || res.1 < 0.0 then None else Some(res.1)
  }

  /** What list entry `x` offers the entity phase. The loop's null guard
      compares through `Entity`'s `==`, which is false even for two nulls
      (`Entities.EntityEq`), so it never skips: a null entry is read and
      throws. An entity out of reach in the plane or one without
      `Collision` offers nothing; otherwise it offers the distance of its
      mesh hit, when in reach. Reading the `Collision` slot as anything but
      a mesh collision throws, and so does the mesh test itself on a
      triangle record outside the vertex array. */
  function EntityCandidate(g: Game, meshes: nat -> Meshes.Mesh, eye: V3, dir: V3, x: Ref): (r: Result<Option<real>>)
    ensures r.Ok? ==> x.Some?
    ensures r.Ok? && r.value.Some? ==> 0.0 <= r.value.value <= Reach
    ensures r.Ok? && r.value.Some? ==>
      !(PlanarSq(E(g, x.value), eye) > ReachSq) && Has(g.pool, E(g, x.value), Collision)
    ensures x.None? ==> r == Err("NullReferenceException")
    ensures x.Some? && PlanarSq(E(g, x.value), eye) > ReachSq ==> r == Ok(None)
    ensures x.Some? && !Has(g.pool, E(g, x.value), Collision) ==> r == Ok(None)
  {
    if x.None? then Err("NullReferenceException")
    else
      var e := E(g, x.value);
      if PlanarSq(e, eye) > ReachSq then Ok(None)
      else if !Has(g.pool, e, Collision) then Ok(None)
      else match C(g, GetComp(g.pool, e, Collision).value).body
        case CollisionBody(m) =>
          (match MeshCollisions.MeshRayCollides(meshes(m), Pos(e), eye, dir)
           case Err(msg) => Err(msg)
           case Ok(res) => Ok(InReach(res)))
        case _ => Err("InvalidCastException")
  }

  /** The entity test as a function of the list entry. */
  function EntityTest(g: Game, meshes: nat -> Meshes.Mesh, eye: V3, dir: V3): Ref -> Result<Option<real>> {
    (x: Ref) => EntityCandidate(g, meshes, eye, dir, x)
  }

  /** What the cached chunk at `key` offers the tile phase: nothing for a
      key that is not cached, otherwise the distance of the terrain mesh
      hit (at no offset), when in reach. */
  function TileCandidate(chunks: map<(int, int), Chunks.Chunk>, eye: V3, dir: V3, key: (int, int)): (r: Result<Option<real>>)
    ensures r.Ok? && r.value.Some? ==> key in chunks && 0.0 <= r.value.value <= Reach
    ensures key !in chunks ==> r == Ok(None)
  {
    if key !in chunks then Ok(None)
    else match MeshCollisions.MeshRayCollides(chunks[key].mesh, Zero, eye, dir)
      case Err(m) => Err(m)
      case Ok(res) => Ok(InReach(res))
  }

  function TileTest(chunks: map<(int, int), Chunks.Chunk>, eye: V3, dir: V3): ((int, int)) -> Result<Option<real>> {
    (key: (int, int)) => TileCandidate(chunks, eye, dir, key)
  }

  /** The 3 x 3 keys around chunk `cp`, in the order of the tile loops. */
  function TileKeys(cp: (int, int)): (keys: seq<(int, int)>)
    ensures |keys| == 9
    ensures forall i, j | -1 <= i <= 1 && -1 <= j <= 1 :: keys[3 * (i + 1) + (j + 1)] == Offset(cp, i, j)
  {
    seq(9, n requires 0 <= n < 9 => Offset(cp, n / 3 - 1, n % 3 - 1))
  }

  /** The tests of `xs`, in order; the first test that throws makes the
      whole run throw. */
  function Collect<K>(test: K -> Result<Option<real>>, xs: seq<K>): (r: Result<seq<Option<real>>>)
    ensures r.Ok? <==> forall k | 0 <= k < |xs| :: test(xs[k]).Ok?
    ensures r.Ok? ==> |r.value| == |xs| && forall k | 0 <= k < |xs| :: test(xs[k]) == Ok(r.value[k])
    decreases |xs|
  {
    if |xs| == 0 then Ok([])
    else match Collect(test, xs[..|xs| - 1])
      case Err(m) => Err(m)
      case Ok(cs) =>
        match test(xs[|xs| - 1])
        case Err(m) => Err(m)
        case Ok(c) =>
          assert forall k | 0 <= k < |xs| - 1 :: xs[..|xs| - 1][k] == xs[k];
          Ok(cs + [c])
  }

  /** A choice among offers: the position chosen, if any, and the distance
      it offers (the starting distance when nothing is chosen). */
  datatype Pick = Pick(index: Option<nat>, dist: real)

  /** The entity loop's rule: an offer replaces the best only when it is
      strictly smaller. */
  function PickFirst(cands: seq<Option<real>>, start: real): Pick
    decreases |cands|
  {
    if |cands| == 0 then Pick(None, start)
    else
      var p := PickFirst(cands[..|cands| - 1], start);
      var c := cands[|cands| - 1];
      if c.Some? && c.value < p.dist then Pick(Some(|cands| - 1), c.value) else p
  }

  /** The tile loop's rule: an offer replaces the best unless it is
      strictly larger. */
  function PickLast(cands: seq<Option<real>>, start: real): Pick
    decreases |cands|
  {
    if |cands| == 0 then Pick(None, start)
    else
      var p := PickLast(cands[..|cands| - 1], start);
      var c := cands[|cands| - 1];
      if c.Some? && !(c.value > p.dist) then Pick(Some(|cands| - 1), c.value) else p
  }

  /** `PickFirst` chooses the FIRST of the smallest offers below `start`,
      and nothing when no offer is below `start`. */
  lemma {:induction false} PickFirstMin(cands: seq<Option<real>>, start: real)
    ensures var p := PickFirst(cands, start);
      && p.dist <= start
      && (p.index.None? <==> forall k | 0 <= k < |cands| && cands[k].Some? :: cands[k].value >= start)
      && (p.index.None? ==> p.dist == start)
      && (p.index.Some? ==>
            && p.index.value < |cands| && cands[p.index.value] == Some(p.dist) && p.dist < start
            && (forall k | 0 <= k < p.index.value && cands[k].Some? :: cands[k].value > p.dist)
            && (forall k | 0 <= k < |cands| && cands[k].Some? :: cands[k].value >= p.dist))
    decreases |cands|
  {
    if |cands| > 0 {
      var n := |cands| - 1;
      PickFirstMin(cands[..n], start);
      assert forall k | 0 <= k < n :: cands[..n][k] == cands[k];
    }
  }

  /** `PickLast` chooses the LAST of the smallest offers not above
      `start`, and nothing when every offer is above `start`. */
  lemma {:induction false} PickLastMin(cands: seq<Option<real>>, start: real)
    ensures var p := PickLast(cands, start);
      && p.dist <= start
      && (p.index.None? <==> forall k | 0 <= k < |cands| && cands[k].Some? :: cands[k].value > start)
      && (p.index.None? ==> p.dist == start)
      && (p.index.Some? ==>
            && p.index.value < |cands| && cands[p.index.value] == Some(p.dist)
            && (forall k | p.index.value < k < |cands| && cands[k].Some? :: cands[k].value > p.dist)
            && (forall k | 0 <= k < |cands| && cands[k].Some? :: cands[k].value >= p.dist))
    decreases |cands|
  {
    if |cands| > 0 {
      var n := |cands| - 1;
      PickLastMin(cands[..n], start);
      assert forall k | 0 <= k < n :: cands[..n][k] == cands[k];
    }
  }

  /** No position offers anything. */
  predicate NoOffer(cs: seq<Option<real>>) {
    forall k | 0 <= k < |cs| :: cs[k].None?
  }

  /** Every offer is at least `d`. */
  predicate Least(cs: seq<Option<real>>, d: real) {
    forall k | 0 <= k < |cs| && cs[k].Some? :: cs[k].value >= d
  }

  /** What a ray cast returns, given the entity offers `ec` of `refs` and
      the tile offers `tc` of `keys`, when the search settles at distance
      `d`: with no offer at all, the empty result; otherwise `d` is the
      smallest offer, made by the first such entity or else the last such
      chunk, a tile winning a tie with an entity; an entity result names no
      chunk and a tile result no entity, and the hit point lies on the ray
      at distance `d`. The constructor never stores the distance, so the
      result's `Distance` is 0 whatever was hit. */
  predicate Nearest(ec: seq<Option<real>>, tc: seq<Option<real>>, refs: seq<Ref>, keys: seq<(int, int)>,
                    eye: V3, dir: V3, h: HitResult, d: real)
    requires |ec| == |refs| && |tc| == |keys|
  {
    && h.distance == 0.0
    && (h.kind == NoHit ==> h == NoHitResult && NoOffer(ec) && NoOffer(tc))
    && (h.kind == EntityHit ==>
          && h.chunk.None? && h.hit == PointAt(eye, dir, d) && Least(ec, d)
          && (forall k | 0 <= k < |tc| && tc[k].Some? :: tc[k].value > d)
          && exists k | 0 <= k < |ec| :: ec[k] == Some(d) && refs[k] == h.entity
               && forall k' | 0 <= k' < k && ec[k'].Some? :: ec[k'].value > d)
    && (h.kind == TileHit ==>
          && h.entity.None? && h.hit == PointAt(eye, dir, d) && Least(ec, d) && Least(tc, d)
          && exists k | 0 <= k < |tc| :: tc[k] == Some(d) && h.chunk == Some(keys[k])
               && forall k' | k < k' < |tc| && tc[k'].Some? :: tc[k'].value > d)
  }

  /** The result of `Raycast(eye, dir)`, as the two phases compute it. */
  function RaycastOf(g: Game, meshes: nat -> Meshes.Mesh, eye: V3, dir: V3): (r: Result<HitResult>)
    requires g.objs.Valid()
    ensures var refs := Vec.Live(g.objs); var keys := TileKeys(Extensions.ChunkPos3(eye));
      && (r.Ok? <==>
            && (forall k | 0 <= k < |refs| :: EntityCandidate(g, meshes, eye, dir, refs[k]).Ok?)
            && (forall k | 0 <= k < |keys| :: TileCandidate(g.chunks, eye, dir, keys[k]).Ok?))
      && (r.Ok? ==> forall k | 0 <= k < |refs| :: refs[k].Some?)
      && (r.Ok? ==> exists d :: Nearest(Collect(EntityTest(g, meshes, eye, dir), refs).value,
                                        Collect(TileTest(g.chunks, eye, dir), keys).value, refs, keys, eye, dir, r.value, d))
  {
    var refs := Vec.Live(g.objs);
    var keys := TileKeys(Extensions.ChunkPos3(eye));
    match Collect(EntityTest(g, meshes, eye, dir), refs)
    case Err(m) => Err(m)
    case Ok(ec) =>
      match Collect(TileTest(g.chunks, eye, dir), keys)
      case Err(m) => Err(m)
      case Ok(tc) =>
        var e := PickFirst(ec, StartDist);
        var t := PickLast(tc, e.dist);
        Finish(ec, tc, refs, keys, eye, dir, e, t)
  }

  /** The `switch` on the hit type: the tile phase's choice if it made
      one, else the entity phase's, else the empty result. */
  function Finish(ec: seq<Option<real>>, tc: seq<Option<real>>, refs: seq<Ref>, keys: seq<(int, int)>,
                  eye: V3, dir: V3, e: Pick, t: Pick): (r: Result<HitResult>)
    requires |ec| == |refs| && |tc| == |keys|
    requires forall k | 0 <= k < |ec| :: ec[k].Some? ==> refs[k].Some? && 0.0 <= ec[k].value <= Reach
    requires forall k | 0 <= k < |tc| :: tc[k].Some? ==> 0.0 <= tc[k].value <= Reach
    requires e == PickFirst(ec, StartDist) && t == PickLast(tc, e.dist)
    ensures r.Ok? && Nearest(ec, tc, refs, keys, eye, dir, r.value, if t.index.Some? then t.dist else e.dist)
  {
    PickFirstMin(ec, StartDist);
    PickLastMin(tc, e.dist);
    if t.index.Some? then
      var at := PointAt(eye, dir, t.dist);
      var h := NewHitResultAsWritten(TileHit, t.dist, at.x, at.y, at.z, None, Some(keys[t.index.value]));
      assert Least(ec, t.dist);
      Ok(h)
    else if e.index.Some? then
      var at := PointAt(eye, dir, e.dist);
      var k := e.index.value;
      var h := NewHitResultAsWritten(EntityHit, e.dist, at.x, at.y, at.z, Some(refs[k].value), None);
      assert ec[k] == Some(e.dist) && refs[k] == h.entity;
      Ok(h)
    else
      assert NoOffer(ec);
      Ok(NoHitResult)
  }

  /** The first `n` tests of `xs` succeed and test `n` throws: the whole
      run throws with that message. */
  lemma {:induction false} CollectErr<K>(test: K -> Result<Option<real>>, xs: seq<K>, n: nat, m: string)
    requires n < |xs| && Collect(test, xs[..n]).Ok? && test(xs[n]) == Err(m)
    ensures Collect(test, xs) == Err(m)
    decreases |xs|
  {
    var last := |xs| - 1;
    if last == n {
      assert xs[..last] == xs[..n];
    } else {
      assert xs[..last][..n] == xs[..n];
      CollectErr(test, xs[..last], n, m);
    }
  }

  /** One more successful test extends the run by its offer. */
  lemma CollectStep<K>(test: K -> Result<Option<real>>, xs: seq<K>, n: nat, cs: seq<Option<real>>, c: Option<real>)
    requires n < |xs| && Collect(test, xs[..n]) == Ok(cs) && test(xs[n]) == Ok(c)
    ensures Collect(test, xs[..n + 1]) == Ok(cs + [c])
  {
    assert xs[..n + 1][..n] == xs[..n];
  }

  /** The search state after the entity loop has tested the entries whose
      offers are `ec`: the distance `PickFirst` reaches, and the entry it
      chose with the point hit, or the initial state. */
  predicate EntityDone(ec: seq<Option<real>>, refs: seq<Ref>, eye: V3, dir: V3, s: Search)
    requires |ec| == |refs|
  {
    var p := PickFirst(ec, StartDist);
    && s.dist == p.dist && s.chunk.None?
    && (p.index.None? ==> s == Start)
    && (p.index.Some? ==>
          && p.index.value < |refs| && s.kind == EntityHit && s.obj == refs[p.index.value]
          && s.at == PointAt(eye, dir, s.dist))
  }

  /** The search state after the tile loops have tested the keys whose
      offers are `tc`, starting from the entity phase's state `s0`. */
  predicate TileDone(tc: seq<Option<real>>, keys: seq<(int, int)>, eye: V3, dir: V3, s0: Search, s: Search)
    requires |tc| == |keys|
  {
    var p := PickLast(tc, s0.dist);
    && s.dist == p.dist
    && (p.index.None? ==> s == s0)
    && (p.index.Some? ==>
          && p.index.value < |keys| && s.kind == TileHit && s.chunk == Some(keys[p.index.value])
          && s.at == PointAt(eye, dir, s.dist) && s.obj == s0.obj)
  }

  /** The entity loop: each entry of `Objs` is tested in order, an offer
      strictly below the best replaces it, and a throwing test ends the
      ray cast. */
  method EntityPhase(g: Game, meshes: nat -> Meshes.Mesh, eye: V3, dir: V3) returns (r: Result<Search>, ghost ec: seq<Option<real>>)
    requires g.objs.Valid()
    ensures var all := Collect(EntityTest(g, meshes, eye, dir), Vec.Live(g.objs));
      && (r.Err? ==> all == Err(r.msg))
      && (r.Ok? ==> all == Ok(ec) && EntityDone(ec, Vec.Live(g.objs), eye, dir, r.value))
  {
    ghost var refs := Vec.Live(g.objs);
    ghost var test := EntityTest(g, meshes, eye, dir);
    var s := Start;
    ec := [];
    var i := 0;
    while i < g.objs.count
      invariant i <= g.objs.count == |refs| && |ec| == i
      invariant Collect(test, refs[..i]) == Ok(ec)
      invariant EntityDone(ec, refs[..i], eye, dir, s)
    {
      var x := g.objs.items[i];
      assert x == refs[i];
      var c := EntityCandidate(g, meshes, eye, dir, x);
      if c.Err? {
        CollectErr(test, refs, i, c.msg);
        return Err(c.msg), ec;
      }
      CollectStep(test, refs, i, ec, c.value);
      var next := s;
      if c.value.Some? && c.value.value < s.dist {
        next := Search(c.value.value, PointAt(eye, dir, c.value.value), x, None, EntityHit);
      }
      EntityStep(ec, refs, eye, dir, s, c.value, next);
      s := next;
      ec := ec + [c.value];
      i := i + 1;
    }
    assert refs[..i] == refs;
    r := Ok(s);
  }

  /** One more offer `c`, for the next entry, keeps `EntityDone`. */
  lemma EntityStep(ec: seq<Option<real>>, refs: seq<Ref>, eye: V3, dir: V3, s: Search, c: Option<real>, next: Search)
    requires |ec| < |refs| && EntityDone(ec, refs[..|ec|], eye, dir, s)
    requires next == if c.Some? && c.value < s.dist
      then Search(c.value, PointAt(eye, dir, c.value), refs[|ec|], None, EntityHit) else s
    ensures EntityDone(ec + [c], refs[..|ec| + 1], eye, dir, next)
  {
    assert (ec + [c])[..|ec|] == ec;
  }

  /** The key the tile loops test at offset (`i`, `j`). */
  lemma TileKeyAt(cp: (int, int), i: int, j: int)
    requires -1 <= i <= 1 && -1 <= j <= 1
    ensures TileKeys(cp)[3 * (i + 1) + (j + 1)] == (i + cp.0, j + cp.1)
  {
    var n := 3 * (i + 1) + (j + 1);
    assert n / 3 - 1 == i && n % 3 - 1 == j;
  }

  /** What the tile loops keep: the keys tested so far produced offers
      `tc`, and the state is where `PickLast` leaves it. */
  ghost predicate TileInv(chunks: map<(int, int), Chunks.Chunk>, eye: V3, dir: V3, s0: Search, tc: seq<Option<real>>, s: Search) {
    var keys := TileKeys(Extensions.ChunkPos3(eye));
    && |tc| <= 9
    && Collect(TileTest(chunks, eye, dir), keys[..|tc|]) == Ok(tc)
    && TileDone(tc, keys[..|tc|], eye, dir, s0, s)
  }

  /** The body of the inner tile loop, for offset (`i`, `j`). */
  method TileAt(chunks: map<(int, int), Chunks.Chunk>, eye: V3, dir: V3, s0: Search, i: int, j: int, s: Search, ghost tc: seq<Option<real>>)
      returns (r: Result<Search>, ghost tc': seq<Option<real>>)
    requires -1 <= i <= 1 && -1 <= j <= 1 && |tc| == 3 * (i + 1) + (j + 1)
    requires TileInv(chunks, eye, dir, s0, tc, s)
    ensures var keys := TileKeys(Extensions.ChunkPos3(eye));
      && (r.Err? ==> Collect(TileTest(chunks, eye, dir), keys) == Err(r.msg))
      && (r.Ok? ==> |tc'| == |tc| + 1 && TileInv(chunks, eye, dir, s0, tc', r.value))
  {
    var cp := Extensions.ChunkPos3(eye);
    ghost var keys := TileKeys(cp);
    ghost var test := TileTest(chunks, eye, dir);
    var key := (i + cp.0, j + cp.1);
    ghost var n := |tc|;
    TileKeyAt(cp, i, j);
    var c := TileCandidate(chunks, eye, dir, key);
    if c.Err? {
      CollectErr(test, keys, n, c.msg);
      return Err(c.msg), tc;
    }
    CollectStep(test, keys, n, tc, c.value);
    var next := s;
    if c.value.Some? && !(c.value.value > s.dist) {
      next := s.(dist := c.value.value, at := PointAt(eye, dir, c.value.value), chunk := Some(key), kind := TileHit);
    }
    TileStep(tc, keys, eye, dir, s0, s, c.value, next);
    r, tc' := Ok(next), tc + [c.value];
  }

  /** One more offer `c`, for the next key, keeps `TileDone`. */
  lemma TileStep(tc: seq<Option<real>>, keys: seq<(int, int)>, eye: V3, dir: V3, s0: Search, s: Search, c: Option<real>, next: Search)
    requires |tc| < |keys| && TileDone(tc, keys[..|tc|], eye, dir, s0, s)
    requires next == if c.Some? && !(c.value > s.dist)
      then s.(dist := c.value, at := PointAt(eye, dir, c.value), chunk := Some(keys[|tc|]), kind := TileHit) else s
    ensures TileDone(tc + [c], keys[..|tc| + 1], eye, dir, s0, next)
  {
    assert (tc + [c])[..|tc|] == tc;
  }

  /** The tile loops: the chunks at offsets -1..1 by -1..1 around the eye's
      chunk, row by row; a cached chunk's offer not above the best
      replaces it, and a throwing test ends the ray cast. */
  method TilePhase(chunks: map<(int, int), Chunks.Chunk>, eye: V3, dir: V3, s0: Search) returns (r: Result<Search>, ghost tc: seq<Option<real>>)
    ensures var keys := TileKeys(Extensions.ChunkPos3(eye)); var all := Collect(TileTest(chunks, eye, dir), keys);
      && (r.Err? ==> all == Err(r.msg))
      && (r.Ok? ==> all == Ok(tc) && TileDone(tc, keys, eye, dir, s0, r.value))
  {
    var s := s0;
    tc := [];
    var i := -1;
    while i <= 1
      invariant -1 <= i <= 2 && |tc| == 3 * (i + 1)
      invariant TileInv(chunks, eye, dir, s0, tc, s)
    {
      var j := -1;
      while j <= 1
        invariant -1 <= j <= 2 && |tc| == 3 * (i + 1) + (j + 1)
        invariant TileInv(chunks, eye, dir, s0, tc, s)
      {
        var res;
        res, tc := TileAt(chunks, eye, dir, s0, i, j, s, tc);
        if res.Err? {
          return res, tc;
        }
        s := res.value;
        j := j + 1;
      }
      i := i + 1;
    }
    assert TileKeys(Extensions.ChunkPos3(eye))[..|tc|] == TileKeys(Extensions.ChunkPos3(eye));
    r := Ok(s);
  }

  /** `World.Raycast`: the entity phase, the tile phase from where it left
      off, and the result for the kind of the last accepted hit. */
  method Raycast(g: Game, meshes: nat -> Meshes.Mesh, eye: V3, dir: V3) returns (r: Result<HitResult>)
    requires g.objs.Valid()
    ensures r == RaycastOf(g, meshes, eye, dir)
  {
    var e, ec := EntityPhase(g, meshes, eye, dir);
    if e.Err? {
      return Err(e.msg);
    }
    var t, tc := TilePhase(g.chunks, eye, dir, e.value);
    if t.Err? {
      return Err(t.msg);
    }
    RaycastReport(g, meshes, eye, dir, ec, tc, e.value, t.value);
    r := Ok(Report(t.value));
  }

  /** Two phases that ran to the end with offers `ec` and `tc` report what
      `RaycastOf` decides. */
  lemma RaycastReport(g: Game, meshes: nat -> Meshes.Mesh, eye: V3, dir: V3, ec: seq<Option<real>>, tc: seq<Option<real>>, s0: Search, s: Search)
    requires g.objs.Valid()
    requires Collect(EntityTest(g, meshes, eye, dir), Vec.Live(g.objs)) == Ok(ec)
    requires Collect(TileTest(g.chunks, eye, dir), TileKeys(Extensions.ChunkPos3(eye))) == Ok(tc)
    requires EntityDone(ec, Vec.Live(g.objs), eye, dir, s0)
    requires TileDone(tc, TileKeys(Extensions.ChunkPos3(eye)), eye, dir, s0, s)
    ensures RaycastOf(g, meshes, eye, dir) == Ok(Report(s))
  {
    RaycastOfPhases(g, meshes, eye, dir, ec, tc);
    ReportFinish(ec, tc, Vec.Live(g.objs), TileKeys(Extensions.ChunkPos3(eye)), eye, dir, s0, s);
  }

  /** The `switch` on the kind of the last accepted hit. */
  function Report(s: Search): HitResult {
    match s.kind
    case EntityHit => NewHitResultAsWritten(EntityHit, s.dist, s.at.x, s.at.y, s.at.z, s.obj, None)
    case TileHit => NewHitResultAsWritten(TileHit, s.dist, s.at.x, s.at.y, s.at.z, None, s.chunk)
    case NoHit => NoHitResult
  }

  /** With both runs of tests succeeding, the ray cast's result is decided
      by their offers alone. */
  lemma RaycastOfPhases(g: Game, meshes: nat -> Meshes.Mesh, eye: V3, dir: V3, ec: seq<Option<real>>, tc: seq<Option<real>>)
    requires g.objs.Valid()
    requires Collect(EntityTest(g, meshes, eye, dir), Vec.Live(g.objs)) == Ok(ec)
    requires Collect(TileTest(g.chunks, eye, dir), TileKeys(Extensions.ChunkPos3(eye))) == Ok(tc)
    ensures var e := PickFirst(ec, StartDist);
      RaycastOf(g, meshes, eye, dir)
        == Finish(ec, tc, Vec.Live(g.objs), TileKeys(Extensions.ChunkPos3(eye)), eye, dir, e, PickLast(tc, e.dist))
  {
  }

  /** The state the two loops leave behind reports what `Finish` chooses. */
  lemma ReportFinish(ec: seq<Option<real>>, tc: seq<Option<real>>, refs: seq<Ref>, keys: seq<(int, int)>,
                     eye: V3, dir: V3, s0: Search, s: Search)
    requires |ec| == |refs| && |tc| == |keys|
    requires forall k | 0 <= k < |ec| :: ec[k].Some? ==> refs[k].Some? && 0.0 <= ec[k].value <= Reach
    requires forall k | 0 <= k < |tc| :: tc[k].Some? ==> 0.0 <= tc[k].value <= Reach
    requires EntityDone(ec, refs, eye, dir, s0) && TileDone(tc, keys, eye, dir, s0, s)
    ensures var e := PickFirst(ec, StartDist);
      Finish(ec, tc, refs, keys, eye, dir, e, PickLast(tc, e.dist)) == Ok(Report(s))
  {
    PickFirstMin(ec, StartDist);
  }

  /** What a ray cast can hit: a tile hit names a cached chunk of the 3 x 3
      around the eye's chunk, and an entity hit names a listed entity in
      reach in the plane that has a `Collision` component. */
  lemma {:induction false} RaycastTargets(g: Game, meshes: nat -> Meshes.Mesh, eye: V3, dir: V3)
    requires g.objs.Valid()
    ensures var r := RaycastOf(g, meshes, eye, dir);
      && (r.Ok? && r.value.kind == TileHit ==>
            && r.value.chunk.Some? && r.value.chunk.value in g.chunks
            && exists i, j | -1 <= i <= 1 && -1 <= j <= 1 :: r.value.chunk.value == Offset(Extensions.ChunkPos3(eye), i, j))
      && (r.Ok? && r.value.kind == EntityHit ==>
            && r.value.entity.Some? && r.value.entity in Vec.Live(g.objs)
            && !(PlanarSq(E(g, r.value.entity.value), eye) > ReachSq)
            && Has(g.pool, E(g, r.value.entity.value), Collision))
  {
    var r := RaycastOf(g, meshes, eye, dir);
    var refs := Vec.Live(g.objs);
    var cp := Extensions.ChunkPos3(eye);
    var keys := TileKeys(cp);
    if r.Ok? {
      var ec := Collect(EntityTest(g, meshes, eye, dir), refs).value;
      var tc := Collect(TileTest(g.chunks, eye, dir), keys).value;
      var d :| Nearest(ec, tc, refs, keys, eye, dir, r.value, d);
      if r.value.kind == TileHit {
        var k :| 0 <= k < |tc| && tc[k] == Some(d) && r.value.chunk == Some(keys[k]);
        assert TileCandidate(g.chunks, eye, dir, keys[k]) == Ok(tc[k]);
        TileKeyAt(cp, k / 3 - 1, k % 3 - 1);
      } else if r.value.kind == EntityHit {
        var k :| 0 <= k < |ec| && ec[k] == Some(d) && refs[k] == r.value.entity;
        assert EntityCandidate(g, meshes, eye, dir, refs[k]) == Ok(ec[k]);
      }
    }
  }
}
