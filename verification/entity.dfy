/** `Entity` (New/Shared/Entity.cs): a handle with an id, flags, the current
    and previous transforms, and a view of its region in the component
    pool. Entities live in the game's entity heap; `Me` and the world's
    lists refer to them by index. */
module Entities {
  import opened Wrappers
  import opened Maths
  import opened Components
  import opened Pool
  import Extensions

  datatype Ent = Ent(
    index: int, view: View, id: nat, removed: bool, updates: bool,
    x: real, y: real, z: real, yaw: real, pitch: real,
    px: real, py: real, pz: real, pyaw: real, ppitch: real)

  /** The state right after the constructor: all ten transform fields zero,
      the given id and pool index, and the view for that index. */
  function Fresh(id: nat, index: int, view: View): (e: Ent)
    ensures e.id == id && e.index == index && e.view == view
    ensures !e.removed && !e.updates
    ensures Pos(e) == Zero && PrevPos(e) == Zero
    ensures e.yaw == 0.0 && e.pitch == 0.0 && e.pyaw == 0.0 && e.ppitch == 0.0
  {
    Ent(index, view, id, false, false, 0.0, 0.0, 0.0, 0.0, 0.0, 0.0, 0.0, 0.0, 0.0, 0.0)
  }

  /** `Pos` / `ToVec3`. */
  function Pos(e: Ent): V3 {
    V3(e.x, e.y, e.z)
  }

  function PrevPos(e: Ent): V3 {
    V3(e.px, e.py, e.pz)
  }

  /** `SetVec3`. */
  function SetPos(e: Ent, p: V3): (r: Ent)
    ensures Pos(r) == p
    ensures r.(x := e.x, y := e.y, z := e.z) == e
  {
    e.(x := p.x, y := p.y, z := p.z)
  }

  /** `IncVec3`. */
  function IncPos(e: Ent, d: V3): (r: Ent)
    ensures Pos(r) == Pos(e).Plus(d)
    ensures r.(x := e.x, y := e.y, z := e.z) == e
  {
    e.(x := e.x + d.x, y := e.y + d.y, z := e.z + d.z)
  }

  /** `SetPrev`: the five previous fields take the current values; nothing
      else changes. */
  function SetPrev(e: Ent): (r: Ent)
    ensures PrevPos(r) == Pos(e) && r.pyaw == e.yaw && r.ppitch == e.pitch
    ensures r.(px := e.px, py := e.py, pz := e.pz, pyaw := e.pyaw, ppitch := e.ppitch) == e
  {
    e.(px := e.x, py := e.y, pz := e.z, pyaw := e.yaw, ppitch := e.pitch)
  }

  /** `LerpedX`, `LerpedY`, `LerpedZ`, `LerpedYaw` and `LerpedPitch` at a
      tick delta. */
  function LerpedPos(e: Ent, delta: real): V3 {
    V3(Lerp(e.px, e.x, delta), Lerp(e.py, e.y, delta), Lerp(e.pz, e.z, delta))
  }

  function LerpedYaw(e: Ent, delta: real): real {
    Lerp(e.pyaw, e.yaw, delta)
  }

  function LerpedPitch(e: Ent, delta: real): real {
    Lerp(e.ppitch, e.pitch, delta)
  }

  /** After `SetPrev` every interpolated value is the current one, for any
      tick delta; at delta 0 they are the previous values and at 1 the
      current ones. */
  lemma SetPrevSettles(e: Ent, delta: real)
    ensures LerpedPos(SetPrev(e), delta) == Pos(e)
    ensures LerpedYaw(SetPrev(e), delta) == e.yaw && LerpedPitch(SetPrev(e), delta) == e.pitch
    ensures LerpedPos(e, 0.0) == PrevPos(e) && LerpedPos(e, 1.0) == Pos(e)
  {
    LerpProperties(e.x, e.x, delta);
    LerpProperties(e.y, e.y, delta);
    LerpProperties(e.z, e.z, delta);
    LerpProperties(e.yaw, e.yaw, delta);
    LerpProperties(e.pitch, e.pitch, delta);
    LerpProperties(e.px, e.x, delta);
    LerpProperties(e.py, e.y, delta);
    LerpProperties(e.pz, e.z, delta);
  }

  /** `ChunkPos`: `((int)X >> 4, (int)Z >> 4)`. */
  function ChunkPos(e: Ent): (c: (int, int))
    ensures c == (Extensions.ChunkCoord(e.x), Extensions.ChunkCoord(e.z))
  {
    Extensions.ChunkPos2(e.x, e.z)
  }

  /** `Entity ==`: `one?.Equals(two) ?? false`, and `Equals` compares ids.
      A null left operand makes the result false, even against null. */
  function EntityEq(a: Option<Ent>, b: Option<Ent>): (r: bool)
    ensures a.None? ==> !r
    ensures a.Some? && b.None? ==> !r
    ensures a.Some? && b.Some? ==> (r <==> a.value.id == b.value.id)
  {
    a.Some? && b.Some? && a.value.id == b.value.id
  }

  /** `!=` negates `==`, so `null != null` holds. */
  function EntityNe(a: Option<Ent>, b: Option<Ent>): (r: bool)
    ensures r <==> !EntityEq(a, b)
  {
    !EntityEq(a, b)
  }

  /** Equality is symmetric and transitive, reflexive on entities, and not
      reflexive on null; two distinct objects with one id are equal. */
  lemma EntityEqProperties(a: Option<Ent>, b: Option<Ent>, c: Option<Ent>)
    ensures !EntityEq(None, None) && EntityNe(None, None)
    ensures a.Some? ==> EntityEq(a, a)
    ensures EntityEq(a, b) == EntityEq(b, a)
    ensures EntityEq(a, b) && EntityEq(b, c) ==> EntityEq(a, c)
  {
  }

  /** Slot `t` of an entity's view (`Get<T>(t)`): null when empty, never a
      failure. */
  function GetComp(p: Pool, e: Ent, t: CompType): Option<nat> {
    Read(p, e.view, t)
  }

  /** `Has(t)`: slot `t` is not null. */
  function Has(p: Pool, e: Ent, t: CompType): (b: bool)
    ensures b <==> GetComp(p, e, t).Some?
  {
    Read(p, e.view, t).Some?
  }

  /** `Add(component)`: the component's owner becomes `self` and it is
      stored in the slot of its kind through the entity's view, replacing
      whatever was there. */
  function AddComp(p: Pool, comps: seq<Component>, self: nat, e: Ent, c: nat): (r: (Pool, seq<Component>))
    requires c < |comps|
    ensures |r.1| == |comps| && r.1[c] == comps[c].(me := Some(self))
    ensures forall i | 0 <= i < |comps| && i != c :: r.1[i] == comps[i]
    ensures r.0 == Write(p, e.view, comps[c].Type(), Some(c))
  {
    var comps' := comps[c := comps[c].(me := Some(self))];
    (Write(p, e.view, comps[c].Type(), Some(c)), comps')
  }

  /** After `Add`, `Get` of the component's kind returns it, `Has` holds,
      and every other kind reads as before. */
  lemma AddThenGet(p: Pool, comps: seq<Component>, self: nat, e: Ent, c: nat, u: CompType)
    requires c < |comps|
    requires e.view.gen < |p.gens| && 0 <= e.view.start && e.view.start + Size <= |p.gens[e.view.gen]|
    ensures var (q, _) := AddComp(p, comps, self, e, c);
      && GetComp(q, e, comps[c].Type()) == Some(c) && Has(q, e, comps[c].Type())
      && (u != comps[c].Type() ==> GetComp(q, e, u) == GetComp(p, e, u))
  {
    ReadWrite(p, e.view, comps[c].Type(), u, Some(c));
  }

  /** The occupied slots of a view from kind `k` on, in kind order: what
      the dispatch loops of `Update`, `Render`, `Interact` and `Die` visit. */
  function OccupiedFrom(p: Pool, v: View, k: nat): (r: seq<(CompType, nat)>)
    ensures forall i | 0 <= i < |r| :: k <= Ord(r[i].0) && Read(p, v, r[i].0) == Some(r[i].1)
    decreases Size - k
  {
    if k >= Size then []
    else
      var t := Kinds[k];
      match Read(p, v, t)
      case None => OccupiedFrom(p, v, k + 1)
      case Some(c) => [(t, c)] + OccupiedFrom(p, v, k + 1)
  }

  function Occupied(p: Pool, v: View): seq<(CompType, nat)> {
    OccupiedFrom(p, v, 0)
  }

  /** The visit order is strictly increasing in kind, so each slot is
      visited at most once, and every occupied slot is visited. */
  lemma OccupiedExact(p: Pool, v: View, k: nat)
    ensures forall i, j | 0 <= i < j < |OccupiedFrom(p, v, k)| ::
      Ord(OccupiedFrom(p, v, k)[i].0) < Ord(OccupiedFrom(p, v, k)[j].0)
    ensures forall t | k <= Ord(t) && Read(p, v, t).Some? ::
      (t, Read(p, v, t).value) in OccupiedFrom(p, v, k)
  {
    OccupiedIncreasing(p, v, k);
    OccupiedComplete(p, v, k);
  }

  /** One step of the visit: slot `k` first when occupied, then the rest. */
  lemma OccupiedStep(p: Pool, v: View, k: nat)
    requires k < Size
    ensures Ord(Kinds[k]) == k
    ensures Read(p, v, Kinds[k]).None? ==> OccupiedFrom(p, v, k) == OccupiedFrom(p, v, k + 1)
    ensures Read(p, v, Kinds[k]).Some? ==>
      OccupiedFrom(p, v, k) == [(Kinds[k], Read(p, v, Kinds[k]).value)] + OccupiedFrom(p, v, k + 1)
  {
    OrdBijection(Kinds[k], k);
  }

  /** Strictly increasing in kind. */
  predicate KindsIncreasing(r: seq<(CompType, nat)>) {
    forall i, j | 0 <= i < j < |r| :: Ord(r[i].0) < Ord(r[j].0)
  }

  lemma ConsIncreasing(x: (CompType, nat), rest: seq<(CompType, nat)>)
    requires KindsIncreasing(rest)
    requires forall i | 0 <= i < |rest| :: Ord(x.0) < Ord(rest[i].0)
    ensures KindsIncreasing([x] + rest)
  {
    var r := [x] + rest;
    forall i, j | 0 <= i < j < |r| ensures Ord(r[i].0) < Ord(r[j].0) {
      assert r[j] == rest[j - 1];
      if i > 0 {
        assert r[i] == rest[i - 1];
      }
    }
  }

  lemma {:induction false} OccupiedIncreasing(p: Pool, v: View, k: nat)
    ensures KindsIncreasing(OccupiedFrom(p, v, k))
    decreases Size - k
  {
    if k < Size {
      OccupiedIncreasing(p, v, k + 1);
      OccupiedStep(p, v, k);
      if Read(p, v, Kinds[k]).Some? {
        ConsIncreasing((Kinds[k], Read(p, v, Kinds[k]).value), OccupiedFrom(p, v, k + 1));
      }
    }
  }

  lemma {:induction false} OccupiedComplete(p: Pool, v: View, k: nat)
    ensures forall t | k <= Ord(t) && Read(p, v, t).Some? ::
      (t, Read(p, v, t).value) in OccupiedFrom(p, v, k)
    decreases Size - k
  {
    if k < Size {
      OccupiedComplete(p, v, k + 1);
      OccupiedStep(p, v, k);
      forall t | k <= Ord(t) && Read(p, v, t).Some?
        ensures (t, Read(p, v, t).value) in OccupiedFrom(p, v, k)
      {
        if Ord(t) == k {
          OrdBijection(t, k);
        }
      }
    }
  }

  /** Whether a component supplies a mesh (`IMeshSupplier`), and which:
      `MeshCollision` and `Model` do. */
  function MeshOf(c: Component): Option<nat> {
    match c.body
    case CollisionBody(m) => Some(m)
    case ModelBody(m, _) => Some(m)
    case _ => None
  }

  /** `GetMesh`: the mesh of the first mesh-supplying component in slot
      order; null when there is none. */
  function GetMeshFrom(comps: seq<Component>, occ: seq<(CompType, nat)>): (r: Option<nat>)
    ensures r.Some? ==> exists i | 0 <= i < |occ| :: occ[i].1 < |comps| && MeshOf(comps[occ[i].1]) == r
    ensures r.None? ==> forall i | 0 <= i < |occ| :: !(occ[i].1 < |comps| && MeshOf(comps[occ[i].1]).Some?)
    decreases |occ|
  {
    if |occ| == 0 then None
    else if occ[0].1 < |comps| && MeshOf(comps[occ[0].1]).Some? then MeshOf(comps[occ[0].1])
    else GetMeshFrom(comps, occ[1..])
  }

  function GetMesh(p: Pool, comps: seq<Component>, e: Ent): Option<nat> {
    GetMeshFrom(comps, Occupied(p, e.view))
  }

  /** Every occupied slot of a view holds a component of the slot's kind, as
      `Add` guarantees. */
  ghost predicate SlotsTyped(p: Pool, comps: seq<Component>, v: View) {
    forall t :: Read(p, v, t).Some? ==> Read(p, v, t).value < |comps| && comps[Read(p, v, t).value].Type() == t
  }

  /** `Add` keeps the slots typed. */
  lemma AddKeepsTyped(p: Pool, comps: seq<Component>, self: nat, e: Ent, c: nat)
    requires c < |comps| && SlotsTyped(p, comps, e.view)
    requires e.view.gen < |p.gens| && 0 <= e.view.start && e.view.start + Size <= |p.gens[e.view.gen]|
    ensures var (q, comps') := AddComp(p, comps, self, e, c); SlotsTyped(q, comps', e.view)
  {
    var (q, comps') := AddComp(p, comps, self, e, c);
    forall t | Read(q, e.view, t).Some?
      ensures Read(q, e.view, t).value < |comps'| && comps'[Read(q, e.view, t).value].Type() == t
    {
      ReadWrite(p, e.view, comps[c].Type(), t, Some(c));
    }
  }

  /** With typed slots, the camera slot supplies no mesh, so a mesh supplier
      in the `Collision` slot wins over one in the `Model3D` slot: `GetMesh`
      returns the collision mesh. */
  lemma CollisionMeshWins(p: Pool, comps: seq<Component>, e: Ent, c: nat)
    requires SlotsTyped(p, comps, e.view)
    requires GetComp(p, e, Collision) == Some(c)
    ensures GetMesh(p, comps, e) == MeshOf(comps[c]) && MeshOf(comps[c]).Some?
  {
    var v := e.view;
    assert Kinds[0] == Camera && Kinds[1] == Collision;
    assert comps[c].Type() == Collision;
    var rest := OccupiedFrom(p, v, 1);
    assert rest == [(Collision, c)] + OccupiedFrom(p, v, 2);
    assert GetMeshFrom(comps, rest) == MeshOf(comps[c]);
    match Read(p, v, Camera)
    case None =>
      assert Occupied(p, v) == rest;
    case Some(c0) =>
      assert comps[c0].Type() == Camera;
      assert Occupied(p, v) == [(Camera, c0)] + rest;
      assert (Occupied(p, v))[1..] == rest;
  }

  /** Without typed slots the first supplier in slot order decides, and
      with no supplier at all the mesh is null. */
  lemma GetMeshNone(p: Pool, comps: seq<Component>, e: Ent)
    requires SlotsTyped(p, comps, e.view)
    requires !Has(p, e, Collision) && !Has(p, e, Model3D)
    ensures GetMesh(p, comps, e).None?
  {
    var occ := Occupied(p, e.view);
    forall i | 0 <= i < |occ|
      ensures !(occ[i].1 < |comps| && MeshOf(comps[occ[i].1]).Some?)
    {
      var t := occ[i].0;
      assert Read(p, e.view, t) == Some(occ[i].1);
    }
  }
}
