/** The mutable object graph the world tick works on, and the gameplay
    hooks of the components (the files under New/Shared/Components), as functions from
    one state to the next.

    Entities, components and item stacks live in heaps addressed by index;
    `Objs` and `ObjsToAdd` (New/Shared/Worlds/World.cs) hold entity
    references, `None` being `null`. The global random source is a stream
    of draws and a position in it. A failed call (`Err`) is an exception
    thrown out of the tick. */
module GameState {
  import opened Wrappers
  import opened Maths
  import Vec
  import Rand
  import opened Components
  import opened Pool
  import opened Entities
  import Items
  import Chunks

  type Ref = Option<nat>

  datatype Game = Game(
    pool: Pool, comps: seq<Component>, ents: seq<Ent>, stacks: seq<Items.Stack>,
    objs: Vec.Vec<Ref>, objsToAdd: Vec.Vec<Ref>,
    chunks: map<(int, int), Chunks.Chunk>, prevCPos: (int, int), inView: int, rng: nat)

  /** What the model takes from outside: the random draws, the terrain
      height, the array pool used by chunk meshes, the player entity, and
      the hooks whose motion is not modelled (`Camera` and `Snow` update
      their owner from input, time and trigonometry). */
  datatype Env = Env(
    draw: nat -> nat, noise: (int, int) -> real, grant: nat -> nat, player: nat,
    own: (CompType, Ent, Body) -> (Ent, Body))

  /** The invariant of a reachable state: the pool and both lists are
      well formed, and every entity's index is a region below `Count`. */
  predicate Valid(g: Game) {
    && g.pool.Valid() && Clean(g.pool) && g.objs.Valid() && g.objsToAdd.Valid()
    && (forall i | 0 <= i < |g.ents| :: 0 <= g.ents[i].index < g.pool.count)
  }

  /** The entity behind a reference (a reference is never dangling in the
      source; here it reads a blank entity). */
  function E(g: Game, e: nat): Ent {
    if e < |g.ents| then g.ents[e] else Fresh(0, 0, View(0, 0))
  }

  function SetE(g: Game, e: nat, x: Ent): (r: Game)
    ensures |r.ents| == |g.ents|
    ensures e < |g.ents| ==> r.ents == g.ents[e := x]
    ensures r.(ents := g.ents) == g
  {
    if e < |g.ents| then g.(ents := g.ents[e := x]) else g
  }

  /** The component behind a reference. */
  function C(g: Game, c: nat): Component {
    if c < |g.comps| then g.comps[c] else Component(CameraBody, None)
  }

  function SetBody(g: Game, c: nat, b: Body): (r: Game)
    ensures |r.comps| == |g.comps|
    ensures c < |g.comps| ==> r.comps == g.comps[c := g.comps[c].(body := b)]
    ensures r.(comps := g.comps) == g
  {
    if c < |g.comps| then g.(comps := g.comps[c := g.comps[c].(body := b)]) else g
  }

  /** `Objs.CanAddWithoutResize()`: the list has a spare slot. */
  predicate CanAddWithoutResize(g: Game) {
    Vec.HasSpare(g.objs)
  }

  /** `World.Add(entity)`: straight into `Objs` when it has room, so the
      list is never reallocated here; otherwise queued in `ObjsToAdd`. */
  function WorldAdd(g: Game, e: nat): (r: Game)
    requires g.objs.Valid() && g.objsToAdd.Valid()
    ensures r.objs.Valid() && r.objsToAdd.Valid()
    ensures CanAddWithoutResize(g) ==>
      && Vec.Live(r.objs) == Vec.Live(g.objs) + [Some(e)] && |r.objs.items| == |g.objs.items|
      && r.objsToAdd == g.objsToAdd
    ensures !CanAddWithoutResize(g) ==>
      r.objs == g.objs && Vec.Live(r.objsToAdd) == Vec.Live(g.objsToAdd) + [Some(e)]
    ensures r.(objs := g.objs, objsToAdd := g.objsToAdd) == g
  {
    if CanAddWithoutResize(g) then g.(objs := Vec.Add(g.objs, Some(e), None))
    else g.(objsToAdd := Vec.Add(g.objsToAdd, Some(e), None))
  }

  /** Whether every reference of the list can be relocated: none is null
      and each live one names a region of the current array. */
  predicate Relocatable(ents: seq<Ent>, q: Pool, refs: seq<Ref>)
    requires q.Valid()
  {
    forall k | 0 <= k < |refs| ::
      refs[k].Some? && (refs[k].value < |ents| ==> Get(q, ents[refs[k].value].index).Ok?)
  }

  /** `foreach (Entity obj in Fall.World.Objs) obj.Relocate()`: each listed
      entity re-fetches the view of its index from the current array. */
  function Relocate(ents: seq<Ent>, q: Pool, refs: seq<Ref>): (r: Result<seq<Ent>>)
    requires q.Valid()
    ensures r.Ok? <==> Relocatable(ents, q, refs)
    ensures r.Ok? ==> |r.value| == |ents|
    ensures r.Ok? ==> forall i | 0 <= i < |ents| ::
      r.value[i] == if Some(i) in refs then ents[i].(view := View(|q.gens| - 1, Size * ents[i].index)) else ents[i]
    decreases |refs|
  {
    if |refs| == 0 then Ok(ents)
    else if refs[0].None? then Err("NullReferenceException")
    else
      var e := refs[0].value;
      var ents' := if e < |ents| && Get(q, ents[e].index).Ok? then ents[e := ents[e].(view := Get(q, ents[e].index).value)] else ents;
      if e < |ents| && Get(q, ents[e].index).Err? then Err("ArgumentOutOfRangeException")
      else
        match Relocate(ents', q, refs[1..])
        case Err(m) => Err(m)
        case Ok(rest) =>
          assert forall k | 0 <= k < |refs| - 1 :: refs[1..][k] == refs[k + 1];
          assert forall i | 0 <= i < |ents| :: Some(i) in refs <==> Some(i) == refs[0] || Some(i) in refs[1..];
          Ok(rest)
  }

  /** `new Entity()`: the id is drawn first (field initialiser), then an
      index is rented (growth relocates every entity listed in `Objs`),
      then the entity takes the view of its index. The new entity is
      appended to the entity heap. */
  function NewEntity(g: Game, env: Env): (r: Result<(nat, Game)>)
    requires Valid(g)
    ensures r.Ok? ==> Valid(r.value.1)
    ensures r.Ok? <==> Relocatable(g.ents, Rent(g.pool).value.1, Vec.Live(g.objs)) || !Rent(g.pool).value.2
    ensures r.Ok? ==>
      var (e, g') := r.value;
      var (index, q, grew) := Rent(g.pool).value;
      && e == |g.ents| && |g'.ents| == |g.ents| + 1
      && g'.ents[e] == Fresh(Rand.NextLong(env.draw, g.rng), index, View(|q.gens| - 1, Size * index))
      && g'.ents[e].id < Rand.Int64Max
      && g'.pool == q && g'.rng == g.rng + 1
      && g'.(ents := g.ents, pool := g.pool, rng := g.rng) == g
      && (forall i | 0 <= i < |g.ents| :: g'.ents[i] ==
            if grew && Some(i) in Vec.Live(g.objs) then g.ents[i].(view := View(|q.gens| - 1, Size * g.ents[i].index))
            else g.ents[i])
  {
    RentClean(g.pool);
    var (index, q, grew) := Rent(g.pool).value;
    Place(g, env, index, q, grew)
  }

  /** The part of `new Entity()` after the index is rented from the array
      `q` (which `grew` or not): relocate if it grew, then append. */
  function Place(g: Game, env: Env, index: nat, q: Pool, grew: bool): (r: Result<(nat, Game)>)
    requires Valid(g) && q.Valid() && Clean(q) && index < q.count && q.count >= g.pool.count
    requires Get(q, index).Ok?
    ensures r.Ok? ==> Valid(r.value.1)
    ensures r.Ok? <==> Relocatable(g.ents, q, Vec.Live(g.objs)) || !grew
    ensures r.Ok? ==>
      var (e, g') := r.value;
      && e == |g.ents| && |g'.ents| == |g.ents| + 1
      && g'.ents[e] == Fresh(Rand.NextLong(env.draw, g.rng), index, Get(q, index).value)
      && g'.ents[e].id < Rand.Int64Max
      && g'.pool == q && g'.rng == g.rng + 1
      && g'.(ents := g.ents, pool := g.pool, rng := g.rng) == g
      && (forall i | 0 <= i < |g.ents| :: g'.ents[i] ==
            if grew && Some(i) in Vec.Live(g.objs) then g.ents[i].(view := View(|q.gens| - 1, Size * g.ents[i].index))
            else g.ents[i])
  {
    var id := Rand.NextLong(env.draw, g.rng);
    var moved := if grew then Relocate(g.ents, q, Vec.Live(g.objs)) else Ok(g.ents);
    match moved
    case Err(m) => Err(m)
    case Ok(ents) =>
      var e := Fresh(id, index, Get(q, index).value);
      var g' := g.(pool := q, ents := ents + [e], rng := g.rng + 1);
      assert forall i | 0 <= i < |g.ents| :: g'.ents[i].index == g.ents[i].index;
      Ok((|g.ents|, g'))
  }

  /** `entity.Add(new X(...))` for a freshly built component: the component
      joins the heap owned by `e` and is stored in the slot of its kind. */
  function Attach(g: Game, e: nat, b: Body): (r: Game)
    ensures |r.comps| == |g.comps| + 1 && r.comps[|g.comps|] == Component(b, Some(e))
    ensures r.comps[..|g.comps|] == g.comps
    ensures r.pool == Write(g.pool, E(g, e).view, KindOf(b), Some(|g.comps|))
    ensures r.(comps := g.comps, pool := g.pool) == g
  {
    var c := |g.comps|;
    var (pool, comps) := AddComp(g.pool, g.comps + [Component(b, None)], e, E(g, e), c);
    assert comps[..c] == g.comps;
    g.(pool := pool, comps := comps)
  }

  /** Every entry a step appended to `ObjsToAdd` names an entity of the
      heap. */
  predicate Queued(g: Game, g': Game)
    requires g.objsToAdd.Valid() && g'.objsToAdd.Valid()
  {
    forall k | |Vec.Live(g.objsToAdd)| <= k < |Vec.Live(g'.objsToAdd)| ::
      Vec.Live(g'.objsToAdd)[k].Some? && Vec.Live(g'.objsToAdd)[k].value < |g'.ents|
  }

  lemma QueuedTrans(g: Game, g1: Game, g2: Game)
    requires g.objsToAdd.Valid() && g1.objsToAdd.Valid() && g2.objsToAdd.Valid()
    requires Queued(g, g1) && Queued(g1, g2) && |g1.ents| <= |g2.ents|
    requires Vec.Live(g.objsToAdd) <= Vec.Live(g1.objsToAdd) <= Vec.Live(g2.objsToAdd)
    ensures Queued(g, g2)
  {
    forall k | |Vec.Live(g.objsToAdd)| <= k < |Vec.Live(g2.objsToAdd)|
      ensures Vec.Live(g2.objsToAdd)[k].Some? && Vec.Live(g2.objsToAdd)[k].value < |g2.ents|
    {
      if k < |Vec.Live(g1.objsToAdd)| {
        assert Vec.Live(g2.objsToAdd)[k] == Vec.Live(g1.objsToAdd)[k];
      }
    }
  }

  /** What an `Update` hook of entity `self` may change: it appends new
      entities and components and queues entities in `ObjsToAdd`, other
      existing entities can only be relocated, and `self` keeps its
      identity and `Updates` flag and never loses `Removed`. */
  predicate Steps(g: Game, g': Game, self: nat)
    requires g.objsToAdd.Valid()
  {
    && g'.objs == g.objs && g'.objsToAdd.Valid()
    && Vec.Live(g.objsToAdd) <= Vec.Live(g'.objsToAdd) && Queued(g, g')
    && |g'.ents| >= |g.ents| && |g'.comps| >= |g.comps|
    && (forall i | 0 <= i < |g.ents| && i != self :: g'.ents[i] == g.ents[i].(view := g'.ents[i].view))
    && (forall i | 0 <= i < |g.ents| :: g'.ents[i].id == g.ents[i].id && g'.ents[i].index == g.ents[i].index)
    && (forall i | 0 <= i < |g.ents| :: g'.ents[i].updates == g.ents[i].updates)
    && (forall i | 0 <= i < |g.ents| :: g.ents[i].removed ==> g'.ents[i].removed)
    && g'.chunks == g.chunks && g'.prevCPos == g.prevCPos && g'.inView == g.inView && g'.stacks == g.stacks
  }

  lemma StepsTrans(g: Game, g1: Game, g2: Game, self: nat)
    requires g.objsToAdd.Valid() && g1.objsToAdd.Valid()
    requires Steps(g, g1, self) && Steps(g1, g2, self)
    ensures Steps(g, g2, self)
  {
    QueuedTrans(g, g1, g2);
  }

  /** `Snow.MODEL_COUNT * 400`: above this many updated entities trees stop
      spawning snow. */
  const SnowModelCount: int := 2
  const SpawnLimit: int := SnowModelCount * 400

  /** `new Snow()`: five draws in field order (three for the drift
      direction, one for the spin sign, one for the phase). */
  function NewSnow(draw: nat -> nat, pos: nat): (b: Body)
    ensures b.SnowBody?
    ensures -0.7 <= b.dir.x < 0.7 && -0.6 <= b.dir.y < -0.2 && -0.7 <= b.dir.z < 0.7
    ensures b.mul == -1 || b.mul == 1
    ensures 0 <= b.offset < 360
  {
    var dir := V3(Rand.NextFloat(draw, pos, -0.7, 0.7), Rand.NextFloat(draw, pos + 1, -0.6, -0.2),
                  Rand.NextFloat(draw, pos + 2, -0.7, 0.7));
    var mul := if Rand.Next(draw, pos + 3, 0, 2).value == 1 then -1 else 1;
    SnowBody(dir, mul, Rand.Next(draw, pos + 4, 0, 360).value)
  }

  /** The three draws of `ItemDrop`'s initial velocity. */
  function NewVelocity(draw: nat -> nat, pos: nat): (v: V3)
    ensures -0.5 <= v.x < 0.5 && 0.5 <= v.y < 1.0 && -0.5 <= v.z < 0.5
  {
    V3(Rand.NextFloat(draw, pos, -0.5, 0.5), Rand.NextFloat(draw, pos + 1, 0.5, 1.0),
       Rand.NextFloat(draw, pos + 2, -0.5, 0.5))
  }

  /** Attaching to a freshly created entity keeps the state valid and
      fills exactly the slot of the component's kind. */
  lemma AttachFresh(g: Game, o: nat, b: Body)
    requires Valid(g) && o < |g.ents|
    requires E(g, o).view == Get(g.pool, E(g, o).index).value
    ensures Valid(Attach(g, o, b))
    ensures forall t ::
      GetComp(Attach(g, o, b).pool, E(g, o), t) == if t == KindOf(b) then Some(|g.comps|) else GetComp(g.pool, E(g, o), t)
  {
    var v := E(g, o).view;
    WriteKeepsClean(g.pool, v, KindOf(b), Some(|g.comps|));
    forall t ensures GetComp(Attach(g, o, b).pool, E(g, o), t) ==
      if t == KindOf(b) then Some(|g.comps|) else GetComp(g.pool, E(g, o), t)
    {
      ReadWrite(g.pool, v, KindOf(b), t, Some(|g.comps|));
    }
  }

  /** The entity just created by `NewEntity`: the last of the heap, with
      the view of its own index in the current array and every slot empty. */
  predicate Newborn(g: Game, o: nat)
    requires g.pool.Valid()
  {
    && o == |g.ents| - 1
    && Get(g.pool, g.ents[o].index).Ok? && g.ents[o].view == Get(g.pool, g.ents[o].index).value
    && forall t :: GetComp(g.pool, g.ents[o], t).None?
  }

  /** `new Entity()` adds one entity, draws once, and changes the existing
      entities only in their views and nothing outside the pool. */
  lemma NewEntityFrame(g: Game, env: Env)
    requires Valid(g) && NewEntity(g, env).Ok?
    ensures var (o, g1) := NewEntity(g, env).value;
      && o == |g.ents| && |g1.ents| == o + 1 && g1.rng == g.rng + 1
      && g1.(ents := g.ents, pool := g.pool, rng := g.rng) == g
      && forall i | 0 <= i < |g.ents| :: g1.ents[i] == g.ents[i].(view := g1.ents[i].view)
  {
  }

  /** A step made of `new Entity()` and changes to the new entity alone, to
      the component heap's tail and to `ObjsToAdd`'s tail is an `Update`
      step. */
  lemma SpawnSteps(g: Game, g1: Game, r: Game, self: nat)
    requires g.objsToAdd.Valid() && |g1.ents| == |g.ents| + 1
    requires g1.(ents := g.ents, pool := g.pool, rng := g.rng) == g
    requires forall i | 0 <= i < |g.ents| :: g1.ents[i] == g.ents[i].(view := g1.ents[i].view)
    requires |r.ents| == |g1.ents| && r.ents[..|g.ents|] == g1.ents[..|g.ents|]
    requires r.objs == g1.objs && r.objsToAdd.Valid() && Vec.Live(r.objsToAdd) == Vec.Live(g1.objsToAdd) + [Some(|g.ents|)]
    requires |r.comps| >= |g1.comps| && r.stacks == g1.stacks && r.chunks == g1.chunks
    requires r.prevCPos == g1.prevCPos && r.inView == g1.inView
    ensures Steps(g, r, self)
  {
    forall i | 0 <= i < |g.ents| ensures r.ents[i] == g1.ents[i] {
      assert r.ents[i] == r.ents[..|g.ents|][i];
    }
  }

  lemma NewEntityNewborn(g: Game, env: Env)
    requires Valid(g) && NewEntity(g, env).Ok?
    ensures Newborn(NewEntity(g, env).value.1, NewEntity(g, env).value.0)
  {
    RentClean(g.pool);
  }

  /** The part of `Tree.Update` after `new Entity()`: five draws for the
      snow component, one for the height, then `ObjsToAdd.Add`. */
  function SpawnSnow(g: Game, env: Env, self: nat, o: nat): (r: Game)
    requires Valid(g) && self < o && Newborn(g, o)
    ensures Valid(r)
    ensures |r.ents| == |g.ents| && r.ents[..o] == g.ents[..o]
    ensures r.objs == g.objs && r.objsToAdd.Valid() && Vec.Live(r.objsToAdd) == Vec.Live(g.objsToAdd) + [Some(o)]
    ensures r.comps == g.comps + [Component(NewSnow(env.draw, g.rng), Some(o))]
    ensures r.rng == g.rng + 6 && r.stacks == g.stacks && r.chunks == g.chunks
    ensures r.prevCPos == g.prevCPos && r.inView == g.inView
    ensures r.ents[o].id == g.ents[o].id && r.ents[o].index == g.ents[o].index && r.ents[o].view == g.ents[o].view
    ensures r.ents[o].updates && r.ents[o].removed == g.ents[o].removed
    ensures r.ents[o].x == g.ents[self].x && r.ents[o].z == g.ents[self].z
    ensures g.ents[self].y + 16.0 <= r.ents[o].y < g.ents[self].y + 28.0
    ensures PrevPos(r.ents[o]) == Pos(r.ents[o])
    ensures forall t :: GetComp(r.pool, r.ents[o], t) == if t == Snow then Some(|g.comps|) else None
  {
    var g2 := SetE(g, o, g.ents[o].(updates := true));
    var snow := NewSnow(env.draw, g2.rng);
    var g3 := Attach(g2.(rng := g2.rng + 5), o, snow);
    AttachFresh(g2.(rng := g2.rng + 5), o, snow);
    var me := E(g3, self);
    var up := Rand.NextFloat(env.draw, g3.rng, 0.0, 12.0);
    var obj := SetPrev(E(g3, o).(x := me.x, y := me.y + 16.0 + up, z := me.z));
    var g4 := SetE(g3.(rng := g3.rng + 1), o, obj);
    assert g4.ents[..o] == g.ents[..o];
    assert obj.view == g.ents[o].view == E(g2, o).view;
    assert KindOf(snow) == Snow;
    forall t ensures GetComp(g4.pool, obj, t) == if t == Snow then Some(|g.comps|) else None {
      assert GetComp(g4.pool, obj, t) == GetComp(g3.pool, E(g2, o), t);
      assert GetComp(g.pool, E(g2, o), t) == GetComp(g.pool, g.ents[o], t);
    }
    g4.(objsToAdd := Vec.Add(g4.objsToAdd, Some(o), None))
  }

  /** `Tree.Update`: while no more than `SpawnLimit` entities were updated
      in the previous tick, spawn one snow flake at the tree and queue it in
      `ObjsToAdd` (`TreeUpdateSpawns` says where). */
  function TreeUpdate(g: Game, env: Env, self: nat): (r: Result<Game>)
    requires Valid(g) && self < |g.ents|
    ensures r.Ok? ==> Valid(r.value) && Steps(g, r.value, self)
    ensures g.inView > SpawnLimit ==> r == Ok(g)
    ensures g.inView <= SpawnLimit ==> (r.Ok? <==> NewEntity(g, env).Ok?)
  {
    if g.inView > SpawnLimit then Ok(g)
    else
      match NewEntity(g, env)
      case Err(m) => Err(m)
      case Ok((o, g1)) =>
        NewEntityNewborn(g, env);
        NewEntityFrame(g, env);
        var r := SpawnSnow(g1, env, self, o);
        SpawnSteps(g, g1, r, self);
        Ok(r)
  }

  /** A spawning tree is `new Entity()` followed by `SpawnSnow`. */
  lemma TreeUpdateIsSpawn(g: Game, env: Env, self: nat)
    requires Valid(g) && self < |g.ents| && g.inView <= SpawnLimit && NewEntity(g, env).Ok?
    ensures var (o, g1) := NewEntity(g, env).value;
      && Valid(g1) && self < o && Newborn(g1, o)
      && TreeUpdate(g, env, self) == Ok(SpawnSnow(g1, env, self, o))
  {
    NewEntityNewborn(g, env);
  }

  /** A tree that spawns adds exactly one entity, flagged `Updates`, at the
      tree's X and Z and 16 to 28 units above it, settled, holding only a
      `Snow` component built from the draws after the id; seven draws are
      used in all. */
  lemma TreeUpdateSpawns(g: Game, env: Env, self: nat)
    requires Valid(g) && self < |g.ents| && g.inView <= SpawnLimit && NewEntity(g, env).Ok?
    ensures var r := TreeUpdate(g, env, self);
      && r.Ok? && |r.value.ents| == |g.ents| + 1 && |r.value.comps| == |g.comps| + 1 && r.value.rng == g.rng + 7
      && Vec.Live(r.value.objsToAdd) == Vec.Live(g.objsToAdd) + [Some(|g.ents|)]
    ensures var g' := TreeUpdate(g, env, self).value; var o := |g.ents|; var me := g.ents[self];
      && o < |g'.ents| && |g.comps| < |g'.comps|
      && g'.ents[o].updates && !g'.ents[o].removed
      && g'.ents[o].x == me.x && g'.ents[o].z == me.z && me.y + 16.0 <= g'.ents[o].y < me.y + 28.0
      && PrevPos(g'.ents[o]) == Pos(g'.ents[o])
      && (forall t :: GetComp(g'.pool, g'.ents[o], t) == if t == Snow then Some(|g.comps|) else None)
      && g'.comps[|g.comps|] == Component(NewSnow(env.draw, g.rng + 1), Some(o))
  {
    var (o, g1) := NewEntity(g, env).value;
    TreeUpdateIsSpawn(g, env, self);
    NewEntityFrame(g, env);
    assert g1.ents[self].x == g.ents[self].x && g1.ents[self].y == g.ents[self].y && g1.ents[self].z == g.ents[self].z;
    assert !g1.ents[o].removed;
  }

  /** `Entity.FALL_ACCEL`. */
  const FallAccel: real := 0.2

  /** `ItemDrop.Update`: `SetPrev` comes first; a drop resting on the
      terrain (height plus vertical speed plus 1.25 above its `Y`) stays,
      otherwise it loses `FALL_ACCEL * 0.5` of vertical speed and moves by
      its velocity. */
  function ItemDropUpdate(g: Game, env: Env, self: nat, c: nat, stack: nat, velo: V3): (r: Game)
    requires Valid(g) && self < |g.ents|
    ensures Valid(r) && Steps(g, r, self)
    ensures PrevPos(r.ents[self]) == Pos(g.ents[self])
    ensures r.ents[self].pyaw == g.ents[self].yaw && r.ents[self].ppitch == g.ents[self].pitch
    ensures var me := g.ents[self];
      if Chunks.HeightAt(env.noise, me.x, me.z) + velo.y + 1.25 > me.y then
        Pos(r.ents[self]) == Pos(me) && r.comps == g.comps
      else
        var v := V3(velo.x, velo.y - FallAccel * 0.5, velo.z);
        Pos(r.ents[self]) == Pos(me).Plus(v) && r.comps == SetBody(g, c, ItemDropBody(stack, v)).comps
    ensures r.ents == g.ents[self := r.ents[self]]
  {
    var me := SetPrev(g.ents[self]);
    if Chunks.HeightAt(env.noise, me.x, me.z) + velo.y + 1.25 > me.y then SetE(g, self, me)
    else
      var v := V3(velo.x, velo.y - FallAccel * 0.5, velo.z);
      SetBody(SetE(g, self, IncPos(me, v)), c, ItemDropBody(stack, v))
  }

  /** The hooks whose motion is not modelled (`Camera.Update`,
      `Snow.Update`): the owner may move and become `Removed`, the
      component's own fields may change; identity, view, `Updates` and the
      component's kind are kept. */
  function OwnUpdate(g: Game, env: Env, self: nat, c: nat, t: CompType): (r: Game)
    requires Valid(g) && self < |g.ents|
    ensures Valid(r) && Steps(g, r, self)
    ensures r.ents == g.ents[self := r.ents[self]]
    ensures |r.comps| == |g.comps| && forall i | 0 <= i < |g.comps| :: i != c ==> r.comps[i] == g.comps[i]
    ensures c < |g.comps| ==> r.comps[c].Type() == g.comps[c].Type() && r.comps[c].me == g.comps[c].me
  {
    var me := g.ents[self];
    var (e, b) := env.own(t, me, C(g, c).body);
    var e2 := e.(index := me.index, view := me.view, id := me.id, updates := me.updates, removed := me.removed || e.removed);
    var b2 := if KindOf(b) == KindOf(C(g, c).body) then b else C(g, c).body;
    SetBody(SetE(g, self, e2), c, b2)
  }

  /** The `Update` override of component `c`, chosen by its class; the
      base hook does nothing. */
  function UpdateHook(g: Game, env: Env, self: nat, c: nat): (r: Result<Game>)
    requires Valid(g) && self < |g.ents|
    ensures r.Ok? ==> Valid(r.value) && Steps(g, r.value, self)
    ensures C(g, c).body.TreeBody? ==> r == TreeUpdate(g, env, self)
    ensures !C(g, c).body.TreeBody? ==> r.Ok?
    ensures C(g, c).body.ItemDropBody? ==>
      r == Ok(ItemDropUpdate(g, env, self, c, C(g, c).body.stack, C(g, c).body.velo))
    ensures !(C(g, c).body.TreeBody? || C(g, c).body.ItemDropBody? || C(g, c).body.CameraBody? || C(g, c).body.SnowBody?) ==>
      r == Ok(g)
  {
    match C(g, c).body
    case TreeBody => TreeUpdate(g, env, self)
    case ItemDropBody(stack, velo) => Ok(ItemDropUpdate(g, env, self, c, stack, velo))
    case CameraBody => Ok(OwnUpdate(g, env, self, c, Camera))
    case SnowBody(_, _, _) => Ok(OwnUpdate(g, env, self, c, Snow))
    case _ => Ok(g)
  }

  /** `Entity.Update()` from slot `k` on: each slot is read through the view
      the entity held when the call began (`_components.Span`), at the
      moment the loop reaches it. */
  function UpdateFrom(g: Game, env: Env, self: nat, v: View, k: nat): (r: Result<Game>)
    requires Valid(g) && self < |g.ents|
    ensures r.Ok? ==> Valid(r.value) && Steps(g, r.value, self)
    decreases Size - k
  {
    if k >= Size then Ok(g)
    else match Read(g.pool, v, Kinds[k])
      case None => UpdateFrom(g, env, self, v, k + 1)
      case Some(c) =>
        match UpdateHook(g, env, self, c)
        case Err(m) => Err(m)
        case Ok(g1) =>
          var r := UpdateFrom(g1, env, self, v, k + 1);
          if r.Ok? then StepsTrans(g, g1, r.value, self); r else r
  }

  function UpdateEntity(g: Game, env: Env, self: nat): (r: Result<Game>)
    requires Valid(g) && self < |g.ents|
    ensures r.Ok? ==> Valid(r.value) && Steps(g, r.value, self)
  {
    UpdateFrom(g, env, self, g.ents[self].view, 0)
  }

  /** An entity with no component that overrides `Update` is left as it
      is. */
  lemma {:induction false} InertUpdate(g: Game, env: Env, self: nat, v: View, k: nat)
    requires Valid(g) && self < |g.ents|
    requires forall t | k <= Ord(t) && Read(g.pool, v, t).Some? ::
      !(C(g, Read(g.pool, v, t).value).body.TreeBody? || C(g, Read(g.pool, v, t).value).body.ItemDropBody?
        || C(g, Read(g.pool, v, t).value).body.CameraBody? || C(g, Read(g.pool, v, t).value).body.SnowBody?)
    ensures UpdateFrom(g, env, self, v, k) == Ok(g)
    decreases Size - k
  {
    if k < Size {
      assert Ord(Kinds[k]) == k by { OrdBijection(Kinds[k], k); }
      InertUpdate(g, env, self, v, k + 1);
    }
  }

  /** What a `Die` hook may change: it may append entities to `Objs` (only
      into spare room, and never one that is `Removed`) or queue them in
      `ObjsToAdd`; existing entities can only be relocated. */
  predicate Dies(g: Game, g': Game)
    requires g.objs.Valid() && g.objsToAdd.Valid()
  {
    && g'.objs.Valid() && g'.objsToAdd.Valid()
    && Vec.Live(g.objs) <= Vec.Live(g'.objs) && |g'.objs.items| == |g.objs.items|
    && Vec.Live(g.objsToAdd) <= Vec.Live(g'.objsToAdd) && Queued(g, g')
    && |g'.ents| >= |g.ents|
    && (forall k | |Vec.Live(g.objs)| <= k < |Vec.Live(g'.objs)| ::
          Vec.Live(g'.objs)[k].Some? && |g.ents| <= Vec.Live(g'.objs)[k].value < |g'.ents|
          && !g'.ents[Vec.Live(g'.objs)[k].value].removed)
    && (forall i | 0 <= i < |g.ents| :: g'.ents[i] == g.ents[i].(view := g'.ents[i].view))
    && g'.chunks == g.chunks && g'.prevCPos == g.prevCPos && g'.inView == g.inView
  }

  lemma DiesTrans(g: Game, g1: Game, g2: Game)
    requires g.objs.Valid() && g.objsToAdd.Valid() && g1.objs.Valid() && g1.objsToAdd.Valid()
    requires Dies(g, g1) && Dies(g1, g2)
    ensures Dies(g, g2)
  {
    QueuedTrans(g, g1, g2);
    forall k | |Vec.Live(g.objs)| <= k < |Vec.Live(g2.objs)|
      ensures Vec.Live(g2.objs)[k].Some? && |g.ents| <= Vec.Live(g2.objs)[k].value < |g2.ents|
        && !g2.ents[Vec.Live(g2.objs)[k].value].removed
    {
      if k < |Vec.Live(g1.objs)| {
        assert Vec.Live(g2.objs)[k] == Vec.Live(g1.objs)[k];
      }
    }
  }

  /** The slots of a dropped item's entity whose three components start at
      `c` in the heap. */
  function DropSlots(c: nat, t: CompType): Option<nat> {
    match t
    case ItemDrop => Some(c)
    case Model3D => Some(c + 1)
    case Collision => Some(c + 2)
    case _ => None
  }

  /** The part of `Drop.Die` after `new Entity()` and the size draw: the new
      entity is placed 4 units above the dying one and settled, the stack
      is created, three draws give the drop's velocity, the three
      components are attached, and the entity goes through `World.Add`. */
  function SpawnDrop(g: Game, env: Env, self: nat, o: nat, item: Items.Item, size: nat, model: nat): (r: Game)
    requires Valid(g) && self < o && Newborn(g, o)
    ensures Valid(r)
    ensures |r.ents| == |g.ents| && r.ents[..o] == g.ents[..o]
    ensures r.rng == g.rng + 3 && r.chunks == g.chunks && r.prevCPos == g.prevCPos && r.inView == g.inView
    ensures r.stacks == g.stacks + [Items.Stack(size, Some(item))]
    ensures r.comps == g.comps + [Component(ItemDropBody(|g.stacks|, NewVelocity(env.draw, g.rng)), Some(o)),
                                  Component(ModelBody(model, 0.0), Some(o)), Component(CollisionBody(model), Some(o))]
    ensures r.ents[o].id == g.ents[o].id && r.ents[o].index == g.ents[o].index && r.ents[o].view == g.ents[o].view
    ensures r.ents[o].updates && r.ents[o].removed == g.ents[o].removed
    ensures Pos(r.ents[o]) == V3(g.ents[self].x, g.ents[self].y + 4.0, g.ents[self].z) && PrevPos(r.ents[o]) == Pos(r.ents[o])
    ensures forall t :: GetComp(r.pool, r.ents[o], t) == DropSlots(|g.comps|, t)
    ensures CanAddWithoutResize(g) ==>
      Vec.Live(r.objs) == Vec.Live(g.objs) + [Some(o)] && |r.objs.items| == |g.objs.items| && r.objsToAdd == g.objsToAdd
    ensures !CanAddWithoutResize(g) ==> r.objs == g.objs && Vec.Live(r.objsToAdd) == Vec.Live(g.objsToAdd) + [Some(o)]
  {
    var me := g.ents[self];
    var obj := SetPrev(g.ents[o].(updates := true, x := me.x, y := me.y + 4.0, z := me.z));
    var g2 := SetE(g, o, obj);
    var g3 := g2.(stacks := g2.stacks + [Items.Stack(size, Some(item))]);
    var velo := NewVelocity(env.draw, g3.rng);
    var g4 := g3.(rng := g3.rng + 3);
    var c := |g.comps|;
    var g5 := Attach(g4, o, ItemDropBody(|g.stacks|, velo));
    AttachFresh(g4, o, ItemDropBody(|g.stacks|, velo));
    var g6 := Attach(g5, o, ModelBody(model, 0.0));
    AttachFresh(g5, o, ModelBody(model, 0.0));
    var g7 := Attach(g6, o, CollisionBody(model));
    AttachFresh(g6, o, CollisionBody(model));
    var g8 := WorldAdd(g7, o);
    assert g8.ents == g2.ents;
    assert g8.ents[..o] == g.ents[..o];
    assert obj.view == g.ents[o].view;
    assert g8.comps == g7.comps == g.comps + [g7.comps[c], g7.comps[c + 1], g7.comps[c + 2]];
    forall t ensures GetComp(g8.pool, obj, t) == DropSlots(c, t) {
      assert GetComp(g.pool, E(g4, o), t) == GetComp(g.pool, g.ents[o], t);
    }
    g8
  }

  /** A step made of `new Entity()` and changes to the new entity alone, to
      the heaps' tails and to the lists' tails, adding only the new entity
      while it is not `Removed`, is a `Die` step. */
  lemma SpawnDies(g: Game, g1: Game, r: Game)
    requires g.objs.Valid() && g.objsToAdd.Valid() && |g1.ents| == |g.ents| + 1
    requires g1.(ents := g.ents, pool := g.pool, rng := g.rng) == g
    requires forall i | 0 <= i < |g.ents| :: g1.ents[i] == g.ents[i].(view := g1.ents[i].view)
    requires |r.ents| == |g1.ents| && r.ents[..|g.ents|] == g1.ents[..|g.ents|] && !r.ents[|g.ents|].removed
    requires r.objs.Valid() && r.objsToAdd.Valid() && |r.objs.items| == |g.objs.items|
    requires Vec.Live(r.objs) == Vec.Live(g.objs) || Vec.Live(r.objs) == Vec.Live(g.objs) + [Some(|g.ents|)]
    requires Vec.Live(r.objsToAdd) == Vec.Live(g.objsToAdd) || Vec.Live(r.objsToAdd) == Vec.Live(g.objsToAdd) + [Some(|g.ents|)]
    requires r.chunks == g.chunks && r.prevCPos == g.prevCPos && r.inView == g.inView
    ensures Dies(g, r)
  {
    forall i | 0 <= i < |g.ents| ensures r.ents[i] == g1.ents[i] {
      assert r.ents[i] == r.ents[..|g.ents|][i];
    }
  }

  /** `Drop.Die`: one new entity carrying a fresh stack of
      `NextUInt(Min, Max)` items (`DropDieSpawns` says what it holds). An
      item without a model makes the mesh lookup throw. */
  function DropDie(g: Game, env: Env, self: nat, item: Items.Item, min: UInt, max: UInt): (r: Result<Game>)
    requires Valid(g) && self < |g.ents|
    ensures r.Ok? ==> Valid(r.value) && Dies(g, r.value)
  {
    match NewEntity(g, env)
    case Err(m) => Err(m)
    case Ok((o, g1)) =>
      NewEntityFrame(g, env);
      match Rand.NextUInt(env.draw, g1.rng, min, max)
      case Err(m) => Err(m)
      case Ok(size) =>
        if item.model.None? then Err("NullReferenceException")
        else
          NewEntityNewborn(g, env);
          Ok(DropSpawned(g, g1, env, self, o, item, size))
  }

  /** The part of `Drop.Die` after `new Entity()` returned `o` in `g1` and
      the stack size was drawn. */
  function DropSpawned(g: Game, g1: Game, env: Env, self: nat, o: nat, item: Items.Item, size: nat): (r: Game)
    requires Valid(g) && self < |g.ents| && Valid(g1) && item.model.Some?
    requires o == |g.ents| && |g1.ents| == o + 1 && Newborn(g1, o) && !g1.ents[o].removed
    requires g1.(ents := g.ents, pool := g.pool, rng := g.rng) == g
    requires forall i | 0 <= i < |g.ents| :: g1.ents[i] == g.ents[i].(view := g1.ents[i].view)
    ensures Valid(r) && Dies(g, r)
  {
    var r := SpawnDrop(g1.(rng := g1.rng + 1), env, self, o, item, size, item.model.value);
    SpawnDies(g, g1, r);
    r
  }

  /** `Drop.Die` succeeds exactly when the entity can be created, the size
      draw (the second draw) is in range and the item has a model. */
  lemma DropDieOk(g: Game, env: Env, self: nat, item: Items.Item, min: UInt, max: UInt)
    requires Valid(g) && self < |g.ents|
    ensures DropDie(g, env, self, item, min, max).Ok? <==>
      NewEntity(g, env).Ok? && Rand.NextUInt(env.draw, g.rng + 1, min, max).Ok? && item.model.Some?
  {
    if NewEntity(g, env).Ok? {
      NewEntityFrame(g, env);
    }
  }

  /** A drop that dies spawns exactly one entity, flagged `Updates`, 4 units
      above it and settled, holding an `ItemDrop` of a new stack of
      `NextUInt(Min, Max)` copies of the item, a `Model` and a
      `MeshCollision` on the item's model, in the slots of their kinds; it
      goes into `Objs` when there is room and is queued otherwise; five
      draws are used in all. */
  lemma DropDieSpawns(g: Game, env: Env, self: nat, item: Items.Item, min: UInt, max: UInt)
    requires Valid(g) && self < |g.ents| && DropDie(g, env, self, item, min, max).Ok?
    ensures var g' := DropDie(g, env, self, item, min, max).value; var o := |g.ents|;
      && |g'.ents| == |g.ents| + 1 && g'.rng == g.rng + 5 && item.model.Some?
      && g'.ents[o].updates && !g'.ents[o].removed
      && Pos(g'.ents[o]) == V3(g.ents[self].x, g.ents[self].y + 4.0, g.ents[self].z)
      && PrevPos(g'.ents[o]) == Pos(g'.ents[o])
    ensures var g' := DropDie(g, env, self, item, min, max).value; var o := |g.ents|;
      var size := Rand.NextUInt(env.draw, g.rng + 1, min, max).value; var c := |g.comps|; var m := item.model.value;
      && g'.stacks == g.stacks + [Items.Stack(size, Some(item))]
      && (min < max <= Rand.Int32Max ==> min <= size < max)
      && g'.comps == g.comps + [Component(ItemDropBody(|g.stacks|, NewVelocity(env.draw, g.rng + 2)), Some(o)),
                                Component(ModelBody(m, 0.0), Some(o)), Component(CollisionBody(m), Some(o))]
    ensures var g' := DropDie(g, env, self, item, min, max).value; var o := |g.ents|;
      && o < |g'.ents|
      && (forall t :: GetComp(g'.pool, g'.ents[o], t) == DropSlots(|g.comps|, t))
      && (CanAddWithoutResize(g) ==> Vec.Live(g'.objs) == Vec.Live(g.objs) + [Some(o)] && g'.objsToAdd == g.objsToAdd)
      && (!CanAddWithoutResize(g) ==> g'.objs == g.objs && Vec.Live(g'.objsToAdd) == Vec.Live(g.objsToAdd) + [Some(o)])
  {
    DropDieOk(g, env, self, item, min, max);
    var (o, g1) := NewEntity(g, env).value;
    NewEntityFrame(g, env);
    NewEntityNewborn(g, env);
    var size := Rand.NextUInt(env.draw, g1.rng, min, max).value;
    assert DropDie(g, env, self, item, min, max) == Ok(DropSpawned(g, g1, env, self, o, item, size));
    var r := SpawnDrop(g1.(rng := g1.rng + 1), env, self, o, item, size, item.model.value);
    assert DropSpawned(g, g1, env, self, o, item, size) == r;
    assert g1.ents[self] == g.ents[self].(view := g1.ents[self].view);
  }

  /** The `Die` override of component `c`, chosen by its class. */
  function DieHook(g: Game, env: Env, self: nat, c: nat): (r: Result<Game>)
    requires Valid(g) && self < |g.ents|
    ensures r.Ok? ==> Valid(r.value) && Dies(g, r.value)
    ensures C(g, c).body.DropBody? ==>
      r == DropDie(g, env, self, C(g, c).body.item, C(g, c).body.min, C(g, c).body.max)
    ensures !C(g, c).body.DropBody? ==> r == Ok(g)
  {
    match C(g, c).body
    case DropBody(item, min, max) => DropDie(g, env, self, item, min, max)
    case _ => Ok(g)
  }

  function DieFrom(g: Game, env: Env, self: nat, v: View, k: nat): (r: Result<Game>)
    requires Valid(g) && self < |g.ents|
    ensures r.Ok? ==> Valid(r.value) && Dies(g, r.value)
    decreases Size - k
  {
    if k >= Size then Ok(g)
    else match Read(g.pool, v, Kinds[k])
      case None => DieFrom(g, env, self, v, k + 1)
      case Some(c) =>
        match DieHook(g, env, self, c)
        case Err(m) => Err(m)
        case Ok(g1) =>
          var r := DieFrom(g1, env, self, v, k + 1);
          if r.Ok? then DiesTrans(g, g1, r.value); r else r
  }

  /** `Entity.Die()`: every component's hook in slot order, through the view
      held when the call began, then the index goes back to the pool. */
  function DieEntity(g: Game, env: Env, self: nat): (r: Result<Game>)
    requires Valid(g) && self < |g.ents|
    ensures r.Ok? ==> Valid(r.value) && Dies(g, r.value)
    ensures r.Ok? ==> |r.value.pool.holes| > 0 && r.value.pool.holes[|r.value.pool.holes| - 1] == g.ents[self].index
  {
    match DieFrom(g, env, self, g.ents[self].view, 0)
    case Err(m) => Err(m)
    case Ok(g1) =>
      var index := g1.ents[self].index;
      assert index == g.ents[self].index;
      RetKeepsClean(g1.pool, index);
      var g2 := g1.(pool := Ret(g1.pool, index));
      assert Dies(g1, g2);
      DiesTrans(g, g1, g2);
      Ok(g2)
  }

  /** The `Health` setter applied by one `Hit`: the health drops by one and
      a negative value marks the owner `Removed`; nothing clears it. */
  function LifeHit(health: int, removed: bool): (r: (int, bool))
  {
    (health - 1, removed || health - 1 < 0)
  }

  /** `k` hits in a row. */
  function LifeHits(health: int, removed: bool, k: nat): (int, bool)
    decreases k
  {
    if k == 0 then (health, removed) else
      var (h, rm) := LifeHit(health, removed);
      LifeHits(h, rm, k - 1)
  }

  /** After `k` hits the health is down by `k`, and the owner is removed
      exactly when it already was or the health went below zero; so
      `Life(n)` with `n >= 0` is removed on the `(n + 1)`-th hit and not
      before. */
  lemma {:induction false} LifeHitsRemove(health: int, removed: bool, k: nat)
    ensures LifeHits(health, removed, k) == (health - k, removed || (k > 0 && health - k < 0))
    ensures health >= 0 && !removed ==> (LifeHits(health, removed, k).1 <==> k == health + 1 || k > health + 1)
    decreases k
  {
    if k > 0 {
      var (h, rm) := LifeHit(health, removed);
      LifeHitsRemove(h, rm, k - 1);
    }
  }

  /** `Life.Interact`: only a `Hit` goes through the setter. */
  function LifeInteract(g: Game, self: nat, c: nat, health: int, it: Interaction): (r: Game)
    requires self < |g.ents|
    ensures it.kind != Hit ==> r == g
    ensures it.kind == Hit ==>
      && r.ents == g.ents[self := g.ents[self].(removed := LifeHit(health, g.ents[self].removed).1)]
      && r.comps == SetBody(g, c, LifeBody(LifeHit(health, g.ents[self].removed).0)).comps
      && r.(ents := g.ents, comps := g.comps) == g
  {
    if it.kind != Hit then g
    else
      var (h, rm) := LifeHit(health, g.ents[self].removed);
      SetE(SetBody(g, c, LifeBody(h)), self, g.ents[self].(removed := rm))
  }

  /** `ItemDrop.Interact`: a `Pickup` adds the drop's stack to the source
      entity's inventory and marks the drop `Removed`. A null source, a
      source without an inventory, or a component of another class in its
      inventory slot, throws. */
  function ItemDropInteract(g: Game, self: nat, stack: nat, it: Interaction): (r: Result<Game>)
    requires self < |g.ents|
    ensures it.kind != Pickup ==> r == Ok(g)
    ensures it.kind == Pickup ==>
      (r.Ok? <==> it.src.Some? && GetComp(g.pool, E(g, it.src.value), Inventory).Some?
                  && C(g, GetComp(g.pool, E(g, it.src.value), Inventory).value).body.InventoryBody?
                  && Items.InventoryAdd(g.stacks, C(g, GetComp(g.pool, E(g, it.src.value), Inventory).value).body.items, stack).Ok?)
    ensures it.kind == Pickup && r.Ok? ==>
      var ic := GetComp(g.pool, E(g, it.src.value), Inventory).value;
      var (stacks, items) := Items.InventoryAdd(g.stacks, C(g, ic).body.items, stack).value;
      && r.value.ents == g.ents[self := g.ents[self].(removed := true)]
      && r.value.stacks == stacks
      && r.value.comps == SetBody(g, ic, InventoryBody(items)).comps
      && r.value.(ents := g.ents, stacks := g.stacks, comps := g.comps) == g
  {
    if it.kind != Pickup then Ok(g)
    else if it.src.None? then Err("NullReferenceException")
    else match GetComp(g.pool, E(g, it.src.value), Inventory)
      case None => Err("NullReferenceException")
      case Some(ic) =>
        match C(g, ic).body
        case InventoryBody(items) =>
          (match Items.InventoryAdd(g.stacks, items, stack)
          case Err(m) => Err(m)
          case Ok((stacks, items')) =>
            Ok(SetE(SetBody(g.(stacks := stacks), ic, InventoryBody(items')), self, g.ents[self].(removed := true))))
        case _ => Err("InvalidCastException")
  }

  /** The `Interact` override of component `c`, chosen by its class. */
  function InteractHook(g: Game, self: nat, c: nat, it: Interaction): (r: Result<Game>)
    requires self < |g.ents|
    ensures r.Ok? ==> |r.value.ents| == |g.ents| && r.value.pool == g.pool && r.value.objs == g.objs
    ensures r.Ok? ==> forall i | 0 <= i < |g.ents| :: i != self ==> r.value.ents[i] == g.ents[i]
    ensures r.Ok? ==> r.value.ents[self] == g.ents[self].(removed := r.value.ents[self].removed)
    ensures r.Ok? && g.ents[self].removed ==> r.value.ents[self].removed
    ensures !(C(g, c).body.LifeBody? || C(g, c).body.ItemDropBody?) ==> r == Ok(g)
  {
    match C(g, c).body
    case LifeBody(health) => Ok(LifeInteract(g, self, c, health, it))
    case ItemDropBody(stack, _) => ItemDropInteract(g, self, stack, it)
    case _ => Ok(g)
  }

  function InteractFrom(g: Game, self: nat, v: View, k: nat, it: Interaction): (r: Result<Game>)
    requires self < |g.ents|
    ensures r.Ok? ==> |r.value.ents| == |g.ents| && r.value.pool == g.pool && r.value.objs == g.objs
    ensures r.Ok? ==> forall i | 0 <= i < |g.ents| :: i != self ==> r.value.ents[i] == g.ents[i]
    ensures r.Ok? ==> r.value.ents[self] == g.ents[self].(removed := r.value.ents[self].removed)
    ensures r.Ok? && g.ents[self].removed ==> r.value.ents[self].removed
    decreases Size - k
  {
    if k >= Size then Ok(g)
    else match Read(g.pool, v, Kinds[k])
      case None => InteractFrom(g, self, v, k + 1, it)
      case Some(c) =>
        match InteractHook(g, self, c, it)
        case Err(m) => Err(m)
        case Ok(g1) => InteractFrom(g1, self, v, k + 1, it)
  }

  /** `Entity.Interact(interaction)`: every component's hook in slot order;
      it changes no entity other than the target, and of the target only
      `Removed`, which it never clears. */
  function InteractEntity(g: Game, self: nat, it: Interaction): (r: Result<Game>)
    requires self < |g.ents|
    ensures r.Ok? ==> |r.value.ents| == |g.ents| && r.value.pool == g.pool && r.value.objs == g.objs
    ensures r.Ok? ==> forall i | 0 <= i < |g.ents| :: i != self ==> r.value.ents[i] == g.ents[i]
    ensures r.Ok? ==> r.value.ents[self] == g.ents[self].(removed := r.value.ents[self].removed)
    ensures r.Ok? && g.ents[self].removed ==> r.value.ents[self].removed
  {
    InteractFrom(g, self, g.ents[self].view, 0, it)
  }
}
