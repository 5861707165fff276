/** The world (New/Shared/Worlds/World.cs): the two entity lists, the chunk
    cache, the tick `Update`, the render selection and `Raycast`.

    The player (`Fall.Player`) is the entity `env.player`; `Fall.InView` is
    the state's `inView`. Rendering itself is GPU work: the model computes
    which chunks and entities are drawn, in drawing order. */
module Worlds {
  import opened Wrappers
  import opened Maths
  import Vec
  import opened Components
  import opened Pool
  import opened Entities
  import Chunks
  import Extensions
  import Buffers
  import Meshes
  import MeshCollisions
  import opened GameState

  /** Every reference held in `Objs` or `ObjsToAdd` is null or names an
      entity of the heap. */
  predicate RefsIn(g: Game)
    requires g.objs.Valid() && g.objsToAdd.Valid()
  {
    && (forall x | x in Vec.Live(g.objs) && x.Some? :: x.value < |g.ents|)
    && (forall x | x in Vec.Live(g.objsToAdd) && x.Some? :: x.value < |g.ents|)
  }

  /** The invariant of the world between ticks. */
  predicate WorldValid(g: Game) {
    Valid(g) && RefsIn(g)
  }

  /** The capacities `new World()` gives the two lists, and the chunk
      position it starts from, which no player is in. */
  const ObjsCapacity: nat := 16384
  const ObjsToAddCapacity: nat := 1024
  const StartCPos: (int, int) := (1000, 1000)

  /** `new World()` on a fresh component pool, before anything is added. */
  function NewWorld(): (g: Game)
    ensures WorldValid(g)
    ensures Vec.Live(g.objs) == [] && |g.objs.items| == ObjsCapacity
    ensures Vec.Live(g.objsToAdd) == [] && |g.objsToAdd.items| == ObjsToAddCapacity
    ensures g.chunks == map[] && g.prevCPos == StartCPos
    ensures g.ents == [] && g.pool.count == 0
  {
    NewPoolClean();
    Game(NewPool(), [], [], [], Vec.New(ObjsCapacity, None).value, Vec.New(ObjsToAddCapacity, None).value,
         map[], StartCPos, 0, 0)
  }

  /** `World.Add` of an entity of the heap keeps the invariant. */
  lemma WorldAddKeeps(g: Game, e: nat)
    requires WorldValid(g) && e < |g.ents|
    ensures WorldValid(WorldAdd(g, e))
  {
  }

  /** What a run of `Update` hooks may change: `Objs` stays as it is,
      `ObjsToAdd` only grows by entities of the heap, the heaps only grow,
      every existing entity keeps its identity and `Updates` flag and never
      loses `Removed`, and the chunk cache and counters are untouched. */
  predicate Ticks(g: Game, g': Game)
    requires g.objsToAdd.Valid()
  {
    && g'.objs == g.objs && g'.objsToAdd.Valid()
    && Vec.Live(g.objsToAdd) <= Vec.Live(g'.objsToAdd) && Queued(g, g')
    && |g'.ents| >= |g.ents| && |g'.comps| >= |g.comps|
    && (forall i | 0 <= i < |g.ents| :: g'.ents[i].id == g.ents[i].id && g'.ents[i].index == g.ents[i].index)
    && (forall i | 0 <= i < |g.ents| :: g'.ents[i].updates == g.ents[i].updates)
    && (forall i | 0 <= i < |g.ents| :: g.ents[i].removed ==> g'.ents[i].removed)
    && g'.chunks == g.chunks && g'.prevCPos == g.prevCPos && g'.inView == g.inView && g'.stacks == g.stacks
  }

  /** A tick step following a run of tick steps is a run of tick steps,
      and it keeps every reference in the heap. */
  lemma TicksStep(g: Game, g1: Game, g2: Game, self: nat)
    requires Valid(g) && RefsIn(g) && Valid(g1) && Valid(g2)
    requires Ticks(g, g1) && RefsIn(g1) && Steps(g1, g2, self)
    ensures Ticks(g, g2) && RefsIn(g2)
  {
    QueuedTrans(g, g1, g2);
    forall x | x in Vec.Live(g2.objsToAdd) && x.Some?
      ensures x.value < |g2.ents|
    {
      var k :| 0 <= k < |Vec.Live(g2.objsToAdd)| && Vec.Live(g2.objsToAdd)[k] == x;
      if k < |Vec.Live(g1.objsToAdd)| {
        assert Vec.Live(g1.objsToAdd)[k] == x;
      }
    }
  }

  /** The planar squared distance between an entity and a point, as the
      tick and the ray cast compute it (`dx * dx + dz * dz`). */
  function PlanarSq(e: Ent, p: V3): real {
    (e.x - p.x) * (e.x - p.x) + (e.z - p.z) * (e.z - p.z)
  }

  /** The activation distance: an entity farther than this from the player
      in the plane is not updated (the bound itself is inside). */
  const ActiveSq: real := 18432.0

  /** Whether the tick updates entity `e` while the player is `p`. */
  predicate Active(e: Ent, p: Ent) {
    e.updates && !(PlanarSq(e, Pos(p)) > ActiveSq)
  }

  /** No entity is listed twice. */
  predicate Distinct(refs: seq<Ref>) {
    forall a, b | 0 <= a < b < |refs| && refs[a].Some? :: refs[a] != refs[b]
  }

  /** Entity `x` differs from what it was in `g` at most in its view. */
  predicate Untouched(g: Game, g': Game, x: nat) {
    x < |g.ents| ==> x < |g'.ents| && g'.ents[x] == g.ents[x].(view := g'.ents[x].view)
  }

  /** Whether the player is listed in `Objs` before position `i`. */
  predicate ListedBefore(objs: Vec.Vec<Ref>, pl: nat, i: nat) {
    exists q | 0 <= q < i && q < |objs.items| :: objs.items[q] == Some(pl)
  }

  /** The player as the test at list position `p` reads it, when the pass
      ends in `after`: as it stood before the pass up to and including the
      player's own entry, and as its own `Update` left it for every entry
      after that one. */
  function SeenPlayer(g: Game, after: Game, pl: nat, p: nat): Ent {
    if ListedBefore(g.objs, pl, p) then E(after, pl) else E(g, pl)
  }

  /** The activation pass of `World.Update`: every listed entity that
      `Updates` and lies within the activation distance of the player, as
      they stand when the loop reaches it, runs its `Update`; `k` counts
      them and `picked` holds their list positions. `Objs` is read through
      the array captured before the loop; no `Update` hook adds to it, so
      its count does not move.

      When the list holds no entity twice, each entity is tested as it
      stood before the pass, and the player as `SeenPlayer` reads it: the
      game lists its own player, so the entries after the player's are
      measured from where the player's `Update` moved it. */
  method Activate(g: Game, env: Env) returns (r: Result<Game>, k: nat, ghost picked: set<nat>)
    requires WorldValid(g)
    ensures r.Ok? ==> WorldValid(r.value) && Ticks(g, r.value)
    ensures k == |picked| && forall p | p in picked :: p < g.objs.count
    ensures forall p | p in picked :: g.objs.items[p].Some? && E(g, g.objs.items[p].value).updates
    ensures r.Ok? ==> forall p | 0 <= p < g.objs.count :: g.objs.items[p].Some?
    ensures r.Ok? && Distinct(Vec.Live(g.objs)) && env.player < |g.ents| ==>
      forall p | 0 <= p < g.objs.count ::
        p in picked <==> g.objs.items[p].Some? && Active(E(g, g.objs.items[p].value), SeenPlayer(g, r.value, env.player, p))
  {
    var cur := g;
    k, picked := 0, {};
    ghost var cond := Distinct(Vec.Live(g.objs)) && env.player < |g.ents|;
    var i := 0;
    while i < cur.objs.count
      invariant ActivateInv(g, env.player, cond, cur, i, k, picked)
    {
      var res;
      res, k, picked := ActivateAt(g, env, cond, cur, i, k, picked);
      if res.Err? {
        return Err(res.msg), k, picked;
      }
      cur := res.value;
      i := i + 1;
    }
    r := Ok(cur);
  }

  /** The invariant of the activation pass before position `i`. */
  ghost predicate ActivateInv(g: Game, pl: nat, cond: bool, cur: Game, i: nat, k: nat, picked: set<nat>)
    requires WorldValid(g)
  {
    && i <= g.objs.count && cur.objs == g.objs
    && WorldValid(cur) && Ticks(g, cur)
    && k == |picked|
    && (forall p | p in picked :: p < i && g.objs.items[p].Some? && E(g, g.objs.items[p].value).updates)
    && (forall p | 0 <= p < i :: g.objs.items[p].Some?)
    && (cond ==> Pending(g, cur, pl, i))
    && (cond ==> forall p | 0 <= p < i ::
          p in picked <==> g.objs.items[p].Some? && Active(E(g, g.objs.items[p].value), SeenPlayer(g, cur, pl, p)))
  }

  /** While the pass is at position `i`: every entity listed from `i` on
      is as it was before the pass, and so is the player unless its entry
      has been passed. */
  predicate Pending(g: Game, cur: Game, pl: nat, i: nat)
    requires g.objs.Valid()
  {
    && (!ListedBefore(g.objs, pl, i) ==> Untouched(g, cur, pl))
    && forall q | i <= q < g.objs.count && g.objs.items[q].Some? :: Untouched(g, cur, g.objs.items[q].value)
  }

  /** The loop body of the activation pass at position `i`: the entity
      there, when it is active, runs its `Update` and is counted. The null
      guard compares through `Entity`'s `==`, which is false even for two
      nulls (`Entities.EntityEq`), so a null entry is not skipped: reading
      its position throws. */
  method ActivateAt(g: Game, env: Env, ghost cond: bool, cur: Game, i: nat, k: nat, ghost picked: set<nat>)
    returns (r: Result<Game>, k': nat, ghost picked': set<nat>)
    requires WorldValid(g) && i < g.objs.count
    requires cond ==> Distinct(Vec.Live(g.objs)) && env.player < |g.ents|
    requires ActivateInv(g, env.player, cond, cur, i, k, picked)
    ensures k' == |picked'| && picked <= picked'
    ensures forall p | p in picked' :: p < g.objs.count && g.objs.items[p].Some? && E(g, g.objs.items[p].value).updates
    ensures r.Ok? ==> ActivateInv(g, env.player, cond, r.value, i + 1, k', picked')
    ensures g.objs.items[i].None? ==> r == Err("NullReferenceException")
  {
    var x := g.objs.items[i];
    if x.None? {
      return Err("NullReferenceException"), k, picked;
    }
    if !Active(E(cur, x.value), E(cur, env.player)) {
      ActivateSkip(g, env.player, cond, cur, i, k, picked);
      return Ok(cur), k, picked;
    }
    var res := UpdateEntity(cur, env, x.value);
    if res.Err? {
      return Err(res.msg), k, picked;
    }
    ActivateHit(g, env.player, cond, cur, res.value, i, k, picked);
    return res, k + 1, picked + {i};
  }

  /** In a list without repeats, the entry at position `i` is listed at no
      earlier position. */
  lemma FirstListing(objs: Vec.Vec<Ref>, i: nat, p: nat)
    requires objs.Valid() && Distinct(Vec.Live(objs)) && p <= i < objs.count && objs.items[i].Some?
    ensures !ListedBefore(objs, objs.items[i].value, p)
  {
    forall q | 0 <= q < p
      ensures objs.items[q] != objs.items[i]
    {
      assert Vec.Live(objs)[q] == objs.items[q] && Vec.Live(objs)[i] == objs.items[i];
    }
  }

  /** The test the pass makes at position `i`, on the state it has reached,
      answers as the characterisation against the state before the pass
      says. */
  lemma ActiveAt(g: Game, cur: Game, pl: nat, i: nat, e: nat)
    requires WorldValid(g) && i < g.objs.count && g.objs.items[i] == Some(e)
    requires pl < |g.ents| && Pending(g, cur, pl, i)
    ensures Active(E(cur, e), E(cur, pl)) == Active(E(g, e), SeenPlayer(g, cur, pl, i))
  {
    assert Some(e) in Vec.Live(g.objs) by { assert Vec.Live(g.objs)[i] == Some(e); }
    assert Untouched(g, cur, e);
    if !ListedBefore(g.objs, pl, i) {
      assert Untouched(g, cur, pl);
      ActiveByFields(E(cur, e), E(g, e), E(cur, pl), E(g, pl));
    } else {
      ActiveByFields(E(cur, e), E(g, e), E(cur, pl), E(cur, pl));
    }
  }

  /** `Active` reads only an entity's `Updates`, `X` and `Z` and the
      player's position. */
  lemma ActiveByFields(a: Ent, b: Ent, p: Ent, q: Ent)
    requires a.updates == b.updates && a.x == b.x && a.z == b.z && Pos(p) == Pos(q)
    ensures Active(a, p) == Active(b, q)
  {
    assert PlanarSq(a, Pos(p)) == PlanarSq(b, Pos(p));
  }

  /** Updating the entry at position `i` does not move the player as the
      tests up to `i` read it: either the entry is someone else, or it is
      the player's own and those tests read the player from before the
      pass. */
  lemma SeenKept(g: Game, cur: Game, next: Game, pl: nat, e: nat, i: nat)
    requires WorldValid(g) && i < g.objs.count && g.objs.items[i] == Some(e)
    requires Distinct(Vec.Live(g.objs)) && pl < |cur.ents| && cur.objsToAdd.Valid() && Steps(cur, next, e)
    ensures forall p | 0 <= p <= i :: Pos(SeenPlayer(g, next, pl, p)) == Pos(SeenPlayer(g, cur, pl, p))
  {
    if e == pl {
      forall p | 0 <= p <= i
        ensures !ListedBefore(g.objs, pl, p)
      {
        FirstListing(g.objs, i, p);
      }
    } else {
      assert next.ents[pl] == cur.ents[pl].(view := next.ents[pl].view);
    }
  }

  /** Passing over an inactive entity keeps the invariant. */
  lemma ActivateSkip(g: Game, pl: nat, cond: bool, cur: Game, i: nat, k: nat, picked: set<nat>)
    requires WorldValid(g) && i < g.objs.count
    requires cond ==> Distinct(Vec.Live(g.objs)) && pl < |g.ents|
    requires ActivateInv(g, pl, cond, cur, i, k, picked)
    requires g.objs.items[i].Some? && !Active(E(cur, g.objs.items[i].value), E(cur, pl))
    ensures ActivateInv(g, pl, cond, cur, i + 1, k, picked)
  {
    var x := g.objs.items[i];
    assert forall p | 0 <= p < i + 1 :: g.objs.items[p].Some?;
    if cond {
      ActiveAt(g, cur, pl, i, x.value);
      assert ListedBefore(g.objs, pl, i) ==> ListedBefore(g.objs, pl, i + 1);
      assert Pending(g, cur, pl, i + 1);
      assert !Active(E(g, x.value), SeenPlayer(g, cur, pl, i));
      assert i !in picked;
    }
  }

  /** Updating the active entity at position `i` and counting it keeps the
      invariant. */
  lemma ActivateHit(g: Game, pl: nat, cond: bool, cur: Game, next: Game, i: nat, k: nat, picked: set<nat>)
    requires WorldValid(g) && i < g.objs.count
    requires cond ==> Distinct(Vec.Live(g.objs)) && pl < |g.ents|
    requires ActivateInv(g, pl, cond, cur, i, k, picked)
    requires g.objs.items[i].Some? && Active(E(cur, g.objs.items[i].value), E(cur, pl))
    requires g.objs.items[i].value < |cur.ents| && Valid(next) && Steps(cur, next, g.objs.items[i].value)
    ensures ActivateInv(g, pl, cond, next, i + 1, k + 1, picked + {i})
  {
    var e := g.objs.items[i].value;
    ActivateStep(g, cur, next, e, pl, i, cond);
    assert i !in picked;
    if cond {
      ActiveAt(g, cur, pl, i, e);
      SeenKept(g, cur, next, pl, e, i);
    }
    PickedExtend(g, cur, next, pl, picked, i, cond);
  }

  /** Adding position `i` to the picked set keeps what the set promises
      about its members and extends the characterisation to `i`, now read
      against the state after the update. */
  lemma PickedExtend(g: Game, cur: Game, next: Game, pl: nat, picked: set<nat>, i: nat, cond: bool)
    requires WorldValid(g) && i < g.objs.count && g.objs.items[i].Some? && E(g, g.objs.items[i].value).updates
    requires forall p | p in picked :: p < i && g.objs.items[p].Some? && E(g, g.objs.items[p].value).updates
    requires cond ==> Active(E(g, g.objs.items[i].value), SeenPlayer(g, cur, pl, i))
    requires cond ==> forall p | 0 <= p <= i :: Pos(SeenPlayer(g, next, pl, p)) == Pos(SeenPlayer(g, cur, pl, p))
    requires cond ==> forall p | 0 <= p < i ::
      p in picked <==> g.objs.items[p].Some? && Active(E(g, g.objs.items[p].value), SeenPlayer(g, cur, pl, p))
    ensures |picked + {i}| == |picked| + 1
    ensures forall p | p in picked + {i} :: p < i + 1 && g.objs.items[p].Some? && E(g, g.objs.items[p].value).updates
    ensures cond ==> forall p | 0 <= p < i + 1 ::
      p in picked + {i} <==> g.objs.items[p].Some? && Active(E(g, g.objs.items[p].value), SeenPlayer(g, next, pl, p))
  {
  }

  /** Whether `Active` holds is decided by the fields it reads, which an
      untouched entity keeps. */
  lemma ActiveUnchanged(g: Game, cur: Game, e: nat, pl: nat)
    requires e < |g.ents| && pl < |g.ents|
    requires Untouched(g, cur, e) && Untouched(g, cur, pl)
    ensures Active(E(cur, e), E(cur, pl)) == Active(E(g, e), E(g, pl))
  {
  }

  /** One update of the activation pass keeps its invariant. */
  lemma ActivateStep(g: Game, cur: Game, next: Game, e: nat, pl: nat, i: nat, cond: bool)
    requires WorldValid(g) && WorldValid(cur) && Ticks(g, cur) && cur.objs == g.objs
    requires e < |cur.ents| && Valid(next) && Steps(cur, next, e)
    requires i < g.objs.count && g.objs.items[i] == Some(e)
    requires cond ==> Distinct(Vec.Live(g.objs)) && pl < |g.ents|
    requires cond ==> Pending(g, cur, pl, i)
    requires Active(E(cur, e), E(cur, pl))
    ensures WorldValid(next) && Ticks(g, next) && next.objs == g.objs
    ensures E(g, e).updates
    ensures cond ==> Pending(g, next, pl, i + 1)
  {
    TicksStep(g, cur, next, e);
    assert Some(e) in Vec.Live(g.objs) by { assert Vec.Live(g.objs)[i] == Some(e); }
    if cond {
      if !ListedBefore(g.objs, pl, i + 1) {
        assert e != pl by { assert g.objs.items[i] == Some(e); }
        assert !ListedBefore(g.objs, pl, i);
        assert Untouched(g, cur, pl);
        assert next.ents[pl] == cur.ents[pl].(view := next.ents[pl].view);
      }
      forall q | i < q < g.objs.count && g.objs.items[q].Some?
        ensures Untouched(g, next, g.objs.items[q].value)
      {
        assert Vec.Live(g.objs)[i] == Some(e) && Vec.Live(g.objs)[q] == g.objs.items[q];
      }
    }
  }

  /** `_removed`, read against the state `g`: a live reference whose
      entity is `Removed`. */
  function Dead(g: Game): Ref -> bool {
    (x: Ref) => x.Some? && E(g, x.value).removed
  }

  /** What the removal pass may change besides `Objs`: `ObjsToAdd` only
      grows by entities of the heap, the entity heap only grows, existing
      entities change at most their view, and the chunk cache and counters
      are untouched. */
  predicate Culls(g: Game, g': Game)
    requires g.objsToAdd.Valid()
  {
    && g'.objsToAdd.Valid()
    && Vec.Live(g.objsToAdd) <= Vec.Live(g'.objsToAdd) && Queued(g, g')
    && |g'.ents| >= |g.ents|
    && (forall i | 0 <= i < |g.ents| :: g'.ents[i] == g.ents[i].(view := g'.ents[i].view))
    && g'.chunks == g.chunks && g'.prevCPos == g.prevCPos && g'.inView == g.inView
  }

  /** Entities that `Die` hooks appended to `Objs` during the pass: new,
      live and not `Removed`. */
  predicate Spawned(g: Game, cur: Game, added: seq<Ref>) {
    forall k | 0 <= k < |added| ::
      added[k].Some? && |g.ents| <= added[k].value < |cur.ents| && !cur.ents[added[k].value].removed
  }

  /** The invariant of the removal pass: the scan runs over the original
      list followed by what the hooks appended, `j` elements of it are
      behind it, of which the dead ones are gone from `Objs` and listed in
      `died`, and the rest of the scan is still in place after `index`. */
  ghost predicate RemoveInv(g: Game, cur: Game, index: nat, j: nat, died: seq<Ref>, added: seq<Ref>)
    requires WorldValid(g)
  {
    && WorldValid(cur) && |cur.objs.items| == |g.objs.items|
    && Culls(g, cur) && Spawned(g, cur, added)
    && index <= cur.objs.count && j <= |Vec.Live(g.objs) + added|
    && Vec.Live(cur.objs)[..index] == Vec.Keep((Vec.Live(g.objs) + added)[..j], Dead(g))
    && Vec.Live(cur.objs)[index..] == (Vec.Live(g.objs) + added)[j..]
    && died == Vec.Matching((Vec.Live(g.objs) + added)[..j], Dead(g))
    && (forall q | 0 <= q < j :: (Vec.Live(g.objs) + added)[q].Some?)
  }

  /** `Objs.RemoveAll(_removed, _ifRemoved)`: every `Removed` entity of the
      list dies, in list order, and leaves it; entities that a `Die` hook
      appends to the list are scanned too but are never `Removed`. A null
      in the list throws when `_removed` reads it.

      `died` lists the entities whose `Die` ran, `added` what the hooks
      appended. */
  method RemoveDead(g: Game, env: Env) returns (r: Result<Game>, ghost died: seq<Ref>, ghost added: seq<Ref>)
    requires WorldValid(g)
    ensures r.Ok? ==> WorldValid(r.value) && Culls(g, r.value) && |r.value.objs.items| == |g.objs.items|
    ensures r.Ok? ==> Vec.Live(r.value.objs) == Vec.Keep(Vec.Live(g.objs), Dead(g)) + added
    ensures r.Ok? ==> died == Vec.Matching(Vec.Live(g.objs), Dead(g))
    ensures r.Ok? ==> Spawned(g, r.value, added)
    ensures r.Ok? ==> forall x | x in Vec.Live(g.objs) :: x.Some?
  {
    var cur := g;
    var index: nat := 0;
    ghost var j: nat := 0;
    died, added := [], [];
    assert Vec.Live(g.objs) + [] == Vec.Live(g.objs);
    while index < cur.objs.count
      invariant RemoveInv(g, cur, index, j, died, added)
      decreases |Vec.Live(g.objs)| - if j < |Vec.Live(g.objs)| then j else |Vec.Live(g.objs)|, cur.objs.count - index
    {
      var res;
      res, index, j, died, added := RemoveAtScan(g, env, cur, index, j, died, added);
      if res.Err? {
        return Err(res.msg), died, added;
      }
      cur := res.value;
    }
    RemoveDone(g, cur, index, j, died, added);
    r := Ok(cur);
  }

  /** The loop body of the removal pass at position `index` of `Objs`,
      which is element `j` of the scan. */
  method RemoveAtScan(g: Game, env: Env, cur: Game, index: nat, ghost j: nat, ghost died: seq<Ref>, ghost added: seq<Ref>)
    returns (r: Result<Game>, index': nat, ghost j': nat, ghost died': seq<Ref>, ghost added': seq<Ref>)
    requires WorldValid(g) && RemoveInv(g, cur, index, j, died, added) && index < cur.objs.count
    ensures j' == j + 1
    ensures r.Ok? ==> RemoveInv(g, r.value, index', j', died', added')
    ensures r.Ok? ==>
      || (index' == index + 1 && r.value.objs.count == cur.objs.count)
      || (index' == index && j < |Vec.Live(g.objs)|)
  {
    ScanHead(g, cur, index, j, died, added);
    var x := cur.objs.items[index];
    if x.None? {
      return Err("NullReferenceException"), index, j + 1, died, added;
    }
    DeadNow(g, cur, j, added);
    if E(cur, x.value).removed {
      ghost var N;
      r, N := KillAt(g, env, cur, index, j, died, added);
      return r, index, j + 1, died + [x], added + N;
    }
    KeepScan(g, cur, index, j, died, added);
    return Ok(cur), index + 1, j + 1, died, added;
  }

  /** Killing the `Removed` entity at position `index`: run its `Die`,
      then remove it from `Objs`. `N` is what the hooks appended. */
  method KillAt(g: Game, env: Env, cur: Game, index: nat, ghost j: nat, ghost died: seq<Ref>, ghost added: seq<Ref>)
    returns (r: Result<Game>, ghost N: seq<Ref>)
    requires WorldValid(g) && RemoveInv(g, cur, index, j, died, added) && index < cur.objs.count
    requires cur.objs.items[index].Some? && Dead(g)(cur.objs.items[index])
    ensures r.Ok? ==> RemoveInv(g, r.value, index, j + 1, died + [cur.objs.items[index]], added + N)
  {
    var x := cur.objs.items[index].value;
    var res := DieEntity(cur, env, x);
    if res.Err? {
      return Err(res.msg), [];
    }
    N := Vec.Live(res.value.objs)[|Vec.Live(cur.objs)|..];
    var next := res.value.(objs := Vec.RemoveAt(res.value.objs, index, None).value);
    RemoveStep(g, cur, res.value, next, index, j, died, added);
    r := Ok(next);
  }

  /** The element at `index` of `Objs` is element `j` of the scan. */
  lemma ScanHead(g: Game, cur: Game, index: nat, j: nat, died: seq<Ref>, added: seq<Ref>)
    requires WorldValid(g) && RemoveInv(g, cur, index, j, died, added) && index < cur.objs.count
    ensures j < |Vec.Live(g.objs) + added| && cur.objs.items[index] == (Vec.Live(g.objs) + added)[j]
  {
    var A := Vec.Live(cur.objs);
    assert A[index] == A[index..][0];
  }

  /** Passing over a live element that is not `Removed` keeps the
      invariant one step further along both the list and the scan. */
  lemma KeepScan(g: Game, cur: Game, index: nat, j: nat, died: seq<Ref>, added: seq<Ref>)
    requires WorldValid(g) && RemoveInv(g, cur, index, j, died, added) && index < cur.objs.count
    requires cur.objs.items[index].Some? && !Dead(g)(cur.objs.items[index])
    ensures RemoveInv(g, cur, index + 1, j + 1, died, added)
  {
    var T := Vec.Live(g.objs) + added;
    var A := Vec.Live(cur.objs);
    assert A[index] == cur.objs.items[index];
    Vec.KeepStep(A, T, j, index, Dead(g));
    Vec.KeepOn(A, [], T, j, index, Dead(g));
  }

  /** The `Removed` flag the pass reads at the scan's current element is
      the one it had before the pass. */
  lemma DeadNow(g: Game, cur: Game, j: nat, added: seq<Ref>)
    requires WorldValid(g) && g.objsToAdd.Valid() && Culls(g, cur) && Spawned(g, cur, added)
    requires j < |Vec.Live(g.objs) + added| && (Vec.Live(g.objs) + added)[j].Some?
    ensures var x := (Vec.Live(g.objs) + added)[j];
      E(cur, x.value).removed == Dead(g)(x)
    ensures Dead(g)((Vec.Live(g.objs) + added)[j]) ==> j < |Vec.Live(g.objs)|
  {
    var x := (Vec.Live(g.objs) + added)[j];
    if j < |Vec.Live(g.objs)| {
      assert x in Vec.Live(g.objs);
    } else {
      assert x == added[j - |Vec.Live(g.objs)|];
    }
  }

  /** Killing the scan's current element and removing it from `Objs`
      keeps the invariant, with what its `Die` appended added to the scan. */
  lemma RemoveStep(g: Game, cur: Game, mid: Game, next: Game, index: nat, j: nat, died: seq<Ref>, added: seq<Ref>)
    requires WorldValid(g) && RemoveInv(g, cur, index, j, died, added)
    requires index < cur.objs.count && cur.objs.items[index].Some?
    requires Dead(g)(cur.objs.items[index])
    requires Valid(mid) && Dies(cur, mid)
    requires next == mid.(objs := Vec.RemoveAt(mid.objs, index, None).value)
    ensures var N := Vec.Live(mid.objs)[|Vec.Live(cur.objs)|..];
      RemoveInv(g, next, index, j + 1, died + [cur.objs.items[index]], added + N)
  {
    var A := Vec.Live(cur.objs);
    var N := Vec.Live(mid.objs)[|A|..];
    assert Vec.Live(mid.objs) == A + N;
    assert Vec.Live(next.objs) == (A + N)[..index] + (A + N)[index + 1..];
    assert A[index] == cur.objs.items[index];
    ScanDrop(Vec.Live(g.objs), added, A, N, j, index, died, Dead(g));
    RemoveFrame(g, cur, mid, next, index, added, N);
  }

  /** The sequence part of a removing step. */
  lemma ScanDrop(L0: seq<Ref>, added: seq<Ref>, A: seq<Ref>, N: seq<Ref>, j: nat, index: nat, died: seq<Ref>, pred: Ref -> bool)
    requires index < |A| && j < |L0 + added|
    requires A[..index] == Vec.Keep((L0 + added)[..j], pred) && A[index..] == (L0 + added)[j..]
    requires died == Vec.Matching((L0 + added)[..j], pred)
    requires forall q | 0 <= q < j :: (L0 + added)[q].Some?
    requires A[index].Some? && pred(A[index])
    ensures var C := (A + N)[..index] + (A + N)[index + 1..];
      && C[..index] == Vec.Keep((L0 + (added + N))[..j + 1], pred)
      && C[index..] == (L0 + (added + N))[j + 1..]
      && died + [A[index]] == Vec.Matching((L0 + (added + N))[..j + 1], pred)
      && forall q | 0 <= q < j + 1 :: (L0 + (added + N))[q].Some?
  {
    var T := L0 + added;
    Vec.KeepStep(A, T, j, index, pred);
    Vec.DropStep(A, N, T, j, index, pred);
    assert T + N == L0 + (added + N);
    forall q | 0 <= q < j + 1
      ensures (L0 + (added + N))[q].Some?
    {
      assert (L0 + (added + N))[q] == (T + N)[q] == T[q];
    }
  }

  /** The state part of a removing step: the state after the hook and the
      removal is valid, keeps the frame, and the appended entities are new
      and not `Removed`. */
  lemma RemoveFrame(g: Game, cur: Game, mid: Game, next: Game, index: nat, added: seq<Ref>, N: seq<Ref>)
    requires WorldValid(g) && WorldValid(cur) && Culls(g, cur) && Spawned(g, cur, added)
    requires |cur.objs.items| == |g.objs.items|
    requires index < cur.objs.count
    requires Valid(mid) && Dies(cur, mid)
    requires N == Vec.Live(mid.objs)[|Vec.Live(cur.objs)|..]
    requires next == mid.(objs := Vec.RemoveAt(mid.objs, index, None).value)
    ensures WorldValid(next) && |next.objs.items| == |g.objs.items|
    ensures Culls(g, next) && Spawned(g, next, added + N)
    ensures index <= next.objs.count
  {
    QueuedTrans(g, cur, mid);
    var A := Vec.Live(cur.objs);
    assert Vec.Live(mid.objs) == A + N;
    assert forall k | 0 <= k < |N| :: N[k] == Vec.Live(mid.objs)[|A| + k];
    assert Vec.Live(next.objs) == (A + N)[..index] + (A + N)[index + 1..];
    RemovedRefsIn(A, N, index, |next.ents|);
    GrownRefsIn(Vec.Live(cur.objsToAdd), Vec.Live(next.objsToAdd), |next.ents|);
    SpawnedAppend(g, cur, next, added, N);
  }

  /** References that are all below `bound` stay so when one is removed. */
  lemma RemovedRefsIn(A: seq<Ref>, N: seq<Ref>, index: nat, bound: nat)
    requires index < |A|
    requires forall x | x in A && x.Some? :: x.value < bound
    requires forall k | 0 <= k < |N| :: N[k].Some? && N[k].value < bound
    ensures forall x | x in (A + N)[..index] + (A + N)[index + 1..] && x.Some? :: x.value < bound
  {
    var C := (A + N)[..index] + (A + N)[index + 1..];
    forall x | x in C && x.Some?
      ensures x.value < bound
    {
      var k :| 0 <= k < |C| && C[k] == x;
      var m := if k < index then k else k + 1;
      assert x == (A + N)[m];
      if m < |A| {
        assert x in A;
      } else {
        assert x == N[m - |A|];
      }
    }
  }

  /** A queue grown by references below `bound` keeps all its references
      below `bound`. */
  lemma GrownRefsIn(Q: seq<Ref>, Q': seq<Ref>, bound: nat)
    requires Q <= Q'
    requires forall x | x in Q && x.Some? :: x.value < bound
    requires forall k | |Q| <= k < |Q'| :: Q'[k].Some? && Q'[k].value < bound
    ensures forall x | x in Q' && x.Some? :: x.value < bound
  {
    forall x | x in Q' && x.Some?
      ensures x.value < bound
    {
      var k :| 0 <= k < |Q'| && Q'[k] == x;
      if k < |Q| {
        assert x == Q[k];
        assert x in Q;
      }
    }
  }

  /** The entities a hook appended join those appended before. */
  lemma SpawnedAppend(g: Game, cur: Game, next: Game, added: seq<Ref>, N: seq<Ref>)
    requires Spawned(g, cur, added) && |g.ents| <= |cur.ents| <= |next.ents|
    requires forall i | 0 <= i < |cur.ents| :: next.ents[i].removed == cur.ents[i].removed
    requires forall k | 0 <= k < |N| ::
      N[k].Some? && |cur.ents| <= N[k].value < |next.ents| && !next.ents[N[k].value].removed
    ensures Spawned(g, next, added + N)
  {
    forall k | 0 <= k < |added + N|
      ensures (added + N)[k].Some? && |g.ents| <= (added + N)[k].value < |next.ents|
        && !next.ents[(added + N)[k].value].removed
    {
      if k < |added| {
        assert (added + N)[k] == added[k];
        assert !cur.ents[added[k].value].removed;
      } else {
        assert (added + N)[k] == N[k - |added|];
      }
    }
  }

  /** When the scan has reached the end of `Objs` it has been over the
      whole of the original list and everything appended to it. */
  lemma RemoveDone(g: Game, cur: Game, index: nat, j: nat, died: seq<Ref>, added: seq<Ref>)
    requires WorldValid(g) && RemoveInv(g, cur, index, j, died, added) && index == cur.objs.count
    ensures Vec.Live(cur.objs) == Vec.Keep(Vec.Live(g.objs), Dead(g)) + added
    ensures died == Vec.Matching(Vec.Live(g.objs), Dead(g))
    ensures forall x | x in Vec.Live(g.objs) :: x.Some?
  {
    var L0 := Vec.Live(g.objs);
    var T := L0 + added;
    assert j == |T|;
    assert T[..j] == T;
    assert Vec.Live(cur.objs) == Vec.Live(cur.objs)[..index];
    Vec.KeepAppend(L0, added, Dead(g));
    forall k | 0 <= k < |added|
      ensures !Dead(g)(added[k])
    {
    }
    Vec.KeepNone(added, Dead(g));
    forall x | x in L0
      ensures x.Some?
    {
      var k :| 0 <= k < |L0| && L0[k] == x;
      assert T[k] == x;
    }
  }

  /** After the removal pass no entity in `Objs` is `Removed`, and every
      entity of the original list that was not `Removed` is still there. */
  lemma {:induction false} RemoveDeadClears(g: Game, r: Game, added: seq<Ref>)
    requires WorldValid(g) && WorldValid(r) && Culls(g, r) && Spawned(g, r, added)
    requires forall x | x in Vec.Live(g.objs) :: x.Some?
    requires Vec.Live(r.objs) == Vec.Keep(Vec.Live(g.objs), Dead(g)) + added
    ensures forall x | x in Vec.Live(r.objs) :: x.Some? && !E(r, x.value).removed
    ensures forall x | x in Vec.Live(g.objs) && !E(g, x.value).removed :: x in Vec.Live(r.objs)
  {
    Vec.KeepContents(Vec.Live(g.objs), Dead(g));
    forall x | x in Vec.Live(r.objs)
      ensures x.Some? && !E(r, x.value).removed
    {
      if x in Vec.Keep(Vec.Live(g.objs), Dead(g)) {
        assert x in Vec.Live(g.objs) && !Dead(g)(x);
      } else {
        var k :| 0 <= k < |added| && added[k] == x;
      }
    }
  }

  /** The streaming radius: chunks within this many chunk steps of the
      player's chunk, on both axes, are kept built. */
  const StreamRadius: int := 12

  /** Chunk `key` lies in the square window of radius `rad` around `cp`. */
  predicate InWindow(key: (int, int), cp: (int, int), rad: int) {
    cp.0 - rad <= key.0 <= cp.0 + rad && cp.1 - rad <= key.1 <= cp.1 + rad
  }

  /** A chunk as `new Chunk(key)` leaves it: at `key`, its static mesh
      finished with the 128 triangles of the grid. */
  predicate Built(key: (int, int), c: Chunks.Chunk) {
    c.pos == key && c.mesh.isStatic && !c.mesh.building && c.mesh.triCount == 128
  }

  /** The cache only grows: cached chunks are never replaced or evicted,
      and every new entry is a chunk built for its key inside the window
      around `cp`. */
  predicate Grew(before: map<(int, int), Chunks.Chunk>, after: map<(int, int), Chunks.Chunk>, cp: (int, int)) {
    && (forall key | key in before :: key in after && after[key] == before[key])
    && (forall key | key in after && key !in before :: InWindow(key, cp, StreamRadius) && Built(key, after[key]))
  }

  /** The chunk at offset `(a, b)` from chunk `cp`. */
  function Offset(cp: (int, int), a: int, b: int): (int, int) {
    (a + cp.0, b + cp.1)
  }

  /** The rows `-12 .. i - 1` of the window, and row `i` up to column
      `j - 1`, are cached. */
  predicate Covered(chunks: map<(int, int), Chunks.Chunk>, cp: (int, int), i: int, j: int) {
    forall a, b | -StreamRadius <= a <= StreamRadius && -StreamRadius <= b <= StreamRadius && (a < i || (a == i && b < j)) ::
      Offset(cp, a, b) in chunks
  }

  /** The streaming loops of `World.Update`: every key of the window around
      `cp` that is not cached gets a new chunk, row by row. */
  method StreamWindow(chunks: map<(int, int), Chunks.Chunk>, env: Env, cp: (int, int))
    returns (r: map<(int, int), Chunks.Chunk>)
    requires Buffers.Grants(env.grant)
    ensures Grew(chunks, r, cp)
    ensures forall key | InWindow(key, cp, StreamRadius) :: key in r
  {
    r := chunks;
    var i := -StreamRadius;
    while i <= StreamRadius
      invariant -StreamRadius <= i <= StreamRadius + 1
      invariant Grew(chunks, r, cp) && Covered(r, cp, i, -StreamRadius)
    {
      var j := -StreamRadius;
      while j <= StreamRadius
        invariant -StreamRadius <= j <= StreamRadius + 1
        invariant Grew(chunks, r, cp) && Covered(r, cp, i, j)
      {
        var key := Offset(cp, i, j);
        if key !in r {
          var c, _ := Chunks.NewChunk(env.grant, env.noise, key.0, key.1);
          r := r[key := c];
        }
        j := j + 1;
      }
      i := i + 1;
    }
    forall key | InWindow(key, cp, StreamRadius)
      ensures key in r
    {
      assert Offset(cp, key.0 - cp.0, key.1 - cp.1) == key;
    }
  }

  /** The last step of `World.Update`: when the player has moved to
      another chunk, the window around it is streamed in and remembered;
      otherwise nothing changes. */
  method Stream(g: Game, env: Env) returns (r: Game)
    requires Buffers.Grants(env.grant)
    ensures ChunkPos(E(g, env.player)) == g.prevCPos ==> r == g
    ensures ChunkPos(E(g, env.player)) != g.prevCPos ==>
      && r == g.(chunks := r.chunks, prevCPos := ChunkPos(E(g, env.player)))
      && Grew(g.chunks, r.chunks, r.prevCPos)
      && forall key | InWindow(key, r.prevCPos, StreamRadius) :: key in r.chunks
  {
    var cp := ChunkPos(E(g, env.player));
    if g.prevCPos == cp {
      return g;
    }
    var chunks := StreamWindow(g.chunks, env, cp);
    r := g.(chunks := chunks, prevCPos := cp);
  }

  /** The merge step of `World.Update`: a non-empty `ObjsToAdd` is
      appended to `Objs`, in order, and then cleared. */
  function Merge(g: Game): (r: Game)
    requires WorldValid(g)
    ensures WorldValid(r)
    ensures Vec.Live(r.objs) == Vec.Live(g.objs) + Vec.Live(g.objsToAdd)
    ensures Vec.Live(r.objsToAdd) == []
    ensures r.(objs := g.objs, objsToAdd := g.objsToAdd) == g
  {
    if g.objsToAdd.count != 0 then
      var r := g.(objs := Vec.AddRange(g.objs, Vec.Live(g.objsToAdd), None), objsToAdd := Vec.Clear(g.objsToAdd));
      assert forall x | x in Vec.Live(r.objs) :: x in Vec.Live(g.objs) || x in Vec.Live(g.objsToAdd);
      r
    else
      assert Vec.Live(g.objsToAdd) == [];
      assert Vec.Live(g.objs) + [] == Vec.Live(g.objs);
      g
  }

  /** The first part of `World.Update`: the activation pass, the merge of
      `ObjsToAdd`, `InView` and the removal pass. `ticked` is the state
      after the activation pass, `merged` the state the removal pass starts
      from and `added` what `Die` hooks appended to `Objs`. */
  method Tick(g: Game, env: Env) returns (r: Result<Game>, ghost ticked: Game, ghost merged: Game, ghost added: seq<Ref>)
    requires WorldValid(g)
    ensures r.Ok? ==> WorldValid(r.value)
    // activation
    ensures r.Ok? ==> WorldValid(ticked) && Ticks(g, ticked)
    ensures r.Ok? ==> forall p | 0 <= p < g.objs.count :: g.objs.items[p].Some?
    ensures r.Ok? ==> WorldValid(merged) && Culls(merged, r.value)
    ensures r.Ok? && Distinct(Vec.Live(g.objs)) && env.player < |g.ents| ==>
      merged.inView == |set p | 0 <= p < g.objs.count && g.objs.items[p].Some?
        && Active(E(g, g.objs.items[p].value), SeenPlayer(g, ticked, env.player, p))|
    // merge: the entries pending before the tick, then those the hooks
    // queued, follow what `Objs` held
    ensures r.Ok? ==> Vec.Live(merged.objs) == Vec.Live(g.objs) + Vec.Live(ticked.objsToAdd)
    ensures r.Ok? ==> Vec.Live(g.objsToAdd) <= Vec.Live(ticked.objsToAdd)
    ensures r.Ok? ==> merged.ents == ticked.ents && merged.chunks == g.chunks && merged.prevCPos == g.prevCPos
    // removal
    ensures r.Ok? ==> Vec.Live(r.value.objs) == Vec.Keep(Vec.Live(merged.objs), Dead(merged)) + added
    ensures r.Ok? ==> Spawned(merged, r.value, added)
    ensures r.Ok? ==> forall x | x in Vec.Live(r.value.objs) :: x.Some? && !E(r.value, x.value).removed
  {
    ticked, merged, added := g, g, [];
    var a, k, picked := Activate(g, env);
    if a.Err? {
      return Err(a.msg), ticked, merged, added;
    }
    ticked := a.value;
    if Distinct(Vec.Live(g.objs)) && env.player < |g.ents| {
      assert picked == set p | 0 <= p < g.objs.count && g.objs.items[p].Some?
        && Active(E(g, g.objs.items[p].value), SeenPlayer(g, ticked, env.player, p));
    }
    var m := Merge(a.value).(inView := k);
    merged := m;
    var d;
    ghost var died;
    d, died, added := RemoveDead(m, env);
    if d.Err? {
      return Err(d.msg), ticked, merged, added;
    }
    RemoveDeadClears(merged, d.value, added);
    r := d;
  }

  /** `World.Update`: `Tick`, then chunk streaming around the player's
      position after its own `Update`. `swept` is the state `Tick` leaves;
      streaming changes only the chunk cache and the remembered chunk
      position. */
  method Update(g: Game, env: Env) returns (r: Result<Game>, ghost swept: Game)
    requires WorldValid(g) && Buffers.Grants(env.grant)
    ensures r.Ok? ==> WorldValid(r.value)
    ensures r.Ok? ==> r.value == swept.(chunks := r.value.chunks, prevCPos := r.value.prevCPos)
    ensures r.Ok? ==> Grew(g.chunks, r.value.chunks, r.value.prevCPos)
    ensures r.Ok? ==> r.value.prevCPos == ChunkPos(E(swept, env.player))
    ensures r.Ok? && ChunkPos(E(swept, env.player)) == g.prevCPos ==> r.value.chunks == g.chunks
    ensures r.Ok? && ChunkPos(E(swept, env.player)) != g.prevCPos ==>
      forall key | InWindow(key, r.value.prevCPos, StreamRadius) :: key in r.value.chunks
  {
    ghost var ticked, merged, added;
    var t;
    t, ticked, merged, added := Tick(g, env);
    swept := g;
    if t.Err? {
      return Err(t.msg), swept;
    }
    swept := t.value;
    var s := Stream(t.value, env);
    r := Ok(s);
  }

  /** A player that was in the heap before the tick is where its own
      `Update` left it: the merge and the removal pass move no entity. */
  lemma {:induction false} PlayerAfterTick(g: Game, ticked: Game, merged: Game, swept: Game, pl: nat)
    requires WorldValid(g) && Ticks(g, ticked) && pl < |g.ents|
    requires merged.ents == ticked.ents && merged.objsToAdd.Valid() && Culls(merged, swept)
    ensures ChunkPos(E(swept, pl)) == ChunkPos(E(ticked, pl))
  {
    assert swept.ents[pl] == merged.ents[pl].(view := swept.ents[pl].view);
  }

  /** `Maths.CalcAngleXz(eye, target)`. */
  function CalcAngleXz(atan2Deg: (real, real) -> real, eye: Ent, target: Ent): real {
    CalcAngle(atan2Deg, target.z - eye.z, target.x - eye.x)
  }

  /** The radius of the square of chunk offsets `Render` considers. */
  const DrawRadius: int := 8

  /** Whether `Render` draws the chunk at offset `(i, j)` from the player's
      chunk, the player looking along `lyaw`: within 9 chunk steps, and
      either within 3 or within 75 degrees of the view direction. */
  predicate ChunkShown(atan2Deg: (real, real) -> real, lyaw: real, i: int, j: int) {
    var d := i * i + j * j;
    !(d > 81) && !(Abs(WrapDegrees(CalcAngle(atan2Deg, j as real, i as real) - lyaw)) > 75.0 && d > 9)
  }

  /** The keys `Render` draws from offset `(i, j)` to the end of row `i`. */
  function RowDraws(atan2Deg: (real, real) -> real, lyaw: real, cp: (int, int), i: int, j: int): seq<(int, int)>
    decreases DrawRadius + 1 - j
  {
    if j > DrawRadius then []
    else (if ChunkShown(atan2Deg, lyaw, i, j) then [Offset(cp, i, j)] else []) + RowDraws(atan2Deg, lyaw, cp, i, j + 1)
  }

  /** The keys `Render` draws from row `i` on, in drawing order. */
  function Draws(atan2Deg: (real, real) -> real, lyaw: real, cp: (int, int), i: int): seq<(int, int)>
    decreases DrawRadius + 1 - i
  {
    if i > DrawRadius then []
    else RowDraws(atan2Deg, lyaw, cp, i, -DrawRadius) + Draws(atan2Deg, lyaw, cp, i + 1)
  }

  /** The chunk loops of `World.Render`: the keys of the drawn chunks, in
      drawing order; a drawn key that is not cached throws. */
  method RenderChunks(chunks: map<(int, int), Chunks.Chunk>, atan2Deg: (real, real) -> real, lyaw: real, cp: (int, int))
    returns (r: Result<seq<(int, int)>>)
    ensures r.Ok? <==> forall key | key in Draws(atan2Deg, lyaw, cp, -DrawRadius) :: key in chunks
    ensures r.Ok? ==> r.value == Draws(atan2Deg, lyaw, cp, -DrawRadius)
  {
    ghost var all := Draws(atan2Deg, lyaw, cp, -DrawRadius);
    var out: seq<(int, int)> := [];
    var i := -DrawRadius;
    while i <= DrawRadius
      invariant -DrawRadius <= i <= DrawRadius + 1
      invariant out + Draws(atan2Deg, lyaw, cp, i) == all
      invariant forall key | key in out :: key in chunks
    {
      var row := RenderRow(chunks, atan2Deg, lyaw, cp, i);
      assert Draws(atan2Deg, lyaw, cp, i) == RowDraws(atan2Deg, lyaw, cp, i, -DrawRadius) + Draws(atan2Deg, lyaw, cp, i + 1);
      if row.Err? {
        return Err(row.msg);
      }
      assert out + row.value + Draws(atan2Deg, lyaw, cp, i + 1) == all;
      out := out + row.value;
      i := i + 1;
    }
    assert out == all;
    r := Ok(out);
  }

  /** The inner loop of `World.Render` over row `i`: the keys of the row's
      drawn chunks, in order; a drawn key that is not cached throws. */
  method RenderRow(chunks: map<(int, int), Chunks.Chunk>, atan2Deg: (real, real) -> real, lyaw: real, cp: (int, int), i: int)
    returns (r: Result<seq<(int, int)>>)
    ensures r.Ok? ==> r.value == RowDraws(atan2Deg, lyaw, cp, i, -DrawRadius) && forall key | key in r.value :: key in chunks
    ensures r.Err? ==> exists key | key in RowDraws(atan2Deg, lyaw, cp, i, -DrawRadius) :: key !in chunks
  {
    ghost var row := RowDraws(atan2Deg, lyaw, cp, i, -DrawRadius);
    var out: seq<(int, int)> := [];
    var j := -DrawRadius;
    while j <= DrawRadius
      invariant -DrawRadius <= j <= DrawRadius + 1
      invariant out + RowDraws(atan2Deg, lyaw, cp, i, j) == row
      invariant forall key | key in out :: key in chunks
    {
      if ChunkShown(atan2Deg, lyaw, i, j) {
        var key := Offset(cp, i, j);
        assert row == out + [key] + RowDraws(atan2Deg, lyaw, cp, i, j + 1);
        if key !in chunks {
          assert row[|out|] == key;
          return Err("KeyNotFoundException");
        }
        out := out + [key];
      } else {
        assert RowDraws(atan2Deg, lyaw, cp, i, j) == RowDraws(atan2Deg, lyaw, cp, i, j + 1);
      }
      j := j + 1;
    }
    assert out == row;
    r := Ok(out);
  }

  /** A key is drawn exactly when it is at a shown offset of the square of
      radius 8 around the player's chunk. */
  lemma {:induction false} RowDrawsMembers(atan2Deg: (real, real) -> real, lyaw: real, cp: (int, int), i: int, j: int, key: (int, int))
    ensures key in RowDraws(atan2Deg, lyaw, cp, i, j) <==>
      exists b | j <= b <= DrawRadius :: ChunkShown(atan2Deg, lyaw, i, b) && key == Offset(cp, i, b)
    decreases DrawRadius + 1 - j
  {
    if j <= DrawRadius {
      RowDrawsMembers(atan2Deg, lyaw, cp, i, j + 1, key);
      var shown := ChunkShown(atan2Deg, lyaw, i, j);
      var rest := RowDraws(atan2Deg, lyaw, cp, i, j + 1);
      assert RowDraws(atan2Deg, lyaw, cp, i, j) == (if shown then [Offset(cp, i, j)] else []) + rest;
      if key in rest {
        var b :| j + 1 <= b <= DrawRadius && ChunkShown(atan2Deg, lyaw, i, b) && key == Offset(cp, i, b);
      }
      if exists b | j <= b <= DrawRadius :: ChunkShown(atan2Deg, lyaw, i, b) && key == Offset(cp, i, b) {
        var b :| j <= b <= DrawRadius && ChunkShown(atan2Deg, lyaw, i, b) && key == Offset(cp, i, b);
        if b > j {
          assert key in rest;
        }
      }
    }
  }

  lemma {:induction false} DrawsMembers(atan2Deg: (real, real) -> real, lyaw: real, cp: (int, int), i: int, key: (int, int))
    ensures key in Draws(atan2Deg, lyaw, cp, i) <==>
      exists a, b | i <= a <= DrawRadius && -DrawRadius <= b <= DrawRadius ::
        ChunkShown(atan2Deg, lyaw, a, b) && key == Offset(cp, a, b)
    decreases DrawRadius + 1 - i
  {
    if i <= DrawRadius {
      DrawsMembers(atan2Deg, lyaw, cp, i + 1, key);
      RowDrawsMembers(atan2Deg, lyaw, cp, i, -DrawRadius, key);
      if key in Draws(atan2Deg, lyaw, cp, i + 1) {
        var a, b :| i + 1 <= a <= DrawRadius && -DrawRadius <= b <= DrawRadius
          && ChunkShown(atan2Deg, lyaw, a, b) && key == Offset(cp, a, b);
      }
      if exists a, b | i <= a <= DrawRadius && -DrawRadius <= b <= DrawRadius ::
        ChunkShown(atan2Deg, lyaw, a, b) && key == Offset(cp, a, b)
      {
        var a, b :| i <= a <= DrawRadius && -DrawRadius <= b <= DrawRadius
          && ChunkShown(atan2Deg, lyaw, a, b) && key == Offset(cp, a, b);
        if a > i {
          assert key in Draws(atan2Deg, lyaw, cp, i + 1);
        }
      }
    }
  }

  /** Every chunk within three chunk steps of the player's is drawn,
      whichever way the player looks. */
  lemma NearChunksShown(atan2Deg: (real, real) -> real, lyaw: real, i: int, j: int)
    requires i * i + j * j <= 9
    ensures ChunkShown(atan2Deg, lyaw, i, j)
  {
  }

  /** The drawn chunks lie inside the streamed window, so once the window
      around the player's chunk has been streamed the chunk loops of
      `Render` cannot miss. */
  lemma StreamedDrawsCached(atan2Deg: (real, real) -> real, lyaw: real, chunks: map<(int, int), Chunks.Chunk>, cp: (int, int))
    requires forall key | InWindow(key, cp, StreamRadius) :: key in chunks
    ensures forall key | key in Draws(atan2Deg, lyaw, cp, -DrawRadius) :: key in chunks
  {
    forall key | key in Draws(atan2Deg, lyaw, cp, -DrawRadius)
      ensures key in chunks
    {
      DrawsMembers(atan2Deg, lyaw, cp, -DrawRadius, key);
      var a, b :| -DrawRadius <= a <= DrawRadius && -DrawRadius <= b <= DrawRadius
        && ChunkShown(atan2Deg, lyaw, a, b) && key == Offset(cp, a, b);
      assert InWindow(key, cp, StreamRadius);
    }
  }

  /** Whether `Render` draws entity `e`, the player `p` looking along
      `lyaw`: within the activation distance, and either within a planar
      squared distance of 864 or within 65 degrees of the view direction. */
  predicate EntityShown(atan2Deg: (real, real) -> real, lyaw: real, p: Ent, e: Ent) {
    var d := PlanarSq(e, Pos(p));
    !(d > ActiveSq || (Abs(WrapDegrees(CalcAngleXz(atan2Deg, p, e) - lyaw)) > 65.0 && d > 864.0))
  }

  /** The entities the entity loop of `Render` passes over without
      drawing. */
  function Unshown(g: Game, atan2Deg: (real, real) -> real, lyaw: real, pl: nat): Ref -> bool {
    (x: Ref) => x.Some? && !EntityShown(atan2Deg, lyaw, E(g, pl), E(g, x.value))
  }

  /** The entity loop of `World.Render`: the entities drawn, in list
      order. As in the activation pass, the null guard never skips, so a
      null entry throws when its position is read. */
  method RenderEntities(g: Game, atan2Deg: (real, real) -> real, lyaw: real, pl: nat) returns (r: Result<seq<Ref>>)
    requires g.objs.Valid()
    ensures r.Ok? <==> forall p | 0 <= p < g.objs.count :: g.objs.items[p].Some?
    ensures r.Err? ==> r.msg == "NullReferenceException"
    ensures r.Ok? ==> r.value == Vec.Keep(Vec.Live(g.objs), Unshown(g, atan2Deg, lyaw, pl))
  {
    var objs := g.objs.items;
    var shown := [];
    var i := 0;
    while i < g.objs.count
      invariant 0 <= i <= g.objs.count
      invariant forall p | 0 <= p < i :: objs[p].Some?
      invariant shown == Vec.Keep(Vec.Live(g.objs)[..i], Unshown(g, atan2Deg, lyaw, pl))
    {
      if objs[i].None? {
        return Err("NullReferenceException");
      }
      assert Vec.Live(g.objs)[..i + 1][..i] == Vec.Live(g.objs)[..i];
      if EntityShown(atan2Deg, lyaw, E(g, pl), E(g, objs[i].value)) {
        shown := shown + [objs[i]];
      }
      i := i + 1;
    }
    assert Vec.Live(g.objs)[..i] == Vec.Live(g.objs);
    r := Ok(shown);
  }

  /** Every drawn entity is within the activation distance, and every
      entity within a planar squared distance of 864 of the player is
      drawn, whichever way the player looks. */
  lemma EntityShownBounds(atan2Deg: (real, real) -> real, lyaw: real, p: Ent, e: Ent)
    ensures EntityShown(atan2Deg, lyaw, p, e) ==> !(PlanarSq(e, Pos(p)) > ActiveSq)
    ensures PlanarSq(e, Pos(p)) <= 864.0 ==> EntityShown(atan2Deg, lyaw, p, e)
  {
  }

  /** `World.Render`: the chunks, then the entities, each in drawing order,
      the player looking along its yaw interpolated at tick delta `delta`. */
  method Render(g: Game, pl: nat, delta: real, atan2Deg: (real, real) -> real)
    returns (r: Result<(seq<(int, int)>, seq<Ref>)>)
    requires g.objs.Valid()
    ensures var lyaw := LerpedYaw(E(g, pl), delta); var cp := ChunkPos(E(g, pl));
      && (r.Ok? <==> && (forall key | key in Draws(atan2Deg, lyaw, cp, -DrawRadius) :: key in g.chunks)
                     && (forall p | 0 <= p < g.objs.count :: g.objs.items[p].Some?))
      && (r.Ok? ==> r.value.0 == Draws(atan2Deg, lyaw, cp, -DrawRadius))
      && (r.Ok? ==> r.value.1 == Vec.Keep(Vec.Live(g.objs), Unshown(g, atan2Deg, lyaw, pl)))
  {
    var cp := ChunkPos(E(g, pl));
    var lyaw := LerpedYaw(E(g, pl), delta);
    var drawn := RenderChunks(g.chunks, atan2Deg, lyaw, cp);
    if drawn.Err? {
      return Err(drawn.msg);
    }
    var shown := RenderEntities(g, atan2Deg, lyaw, pl);
    if shown.Err? {
      return Err(shown.msg);
    }
    r := Ok((drawn.value, shown.value));
  }
}
