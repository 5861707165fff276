/** The component slab `ComponentPool` (New/Shared/Components/ComponentPool.cs).

    Every entity owns a region of `Size` consecutive slots, one per
    component kind, in one shared backing array. Growing the pool replaces
    that array; entities that hold a view of the old array keep seeing it
    until they are relocated. To model such stale views, the pool keeps
    every array it has ever used, `gens`, the last being current; a view
    names the array it was taken from. Slots hold component references
    (`None` is `null`). */
module Pool {
  import opened Wrappers
  import Vec
  import opened Components

  type Slot = Option<nat>

  /** `new Vec<Component>(1 << 19)`. */
  const InitialCapacity: nat := 0x8_0000

  /** A `Memory<Component>` view: the array it was taken from and the first
      slot of the region; its length is always `Size`. */
  datatype View = View(gen: nat, start: int)

  /** `_components.Items` over time, the entity count `Count` and the queue
      of returned indices `_holes`, oldest first. */
  datatype Pool = Pool(gens: seq<seq<Slot>>, count: nat, holes: seq<int>) {
    predicate Valid() {
      |gens| > 0 && Size * count <= |gens[|gens| - 1]|
    }

    function Current(): seq<Slot>
      requires |gens| > 0
    {
      gens[|gens| - 1]
    }
  }

  /** The pool when the program starts. */
  function NewPool(): (p: Pool)
    ensures p.Valid() && p.count == 0 && p.holes == [] && |p.gens| == 1
    ensures |p.Current()| == InitialCapacity
  {
    Pool([seq(InitialCapacity, _ => None)], 0, [])
  }

  /** `TheoreticalCount`: how many regions the current array holds. */
  function TheoreticalCount(p: Pool): (n: nat)
    requires p.Valid()
    ensures Size * n <= |p.Current()| < Size * (n + 1)
    ensures p.count <= n
  {
    |p.Current()| / Size
  }

  /** `Array.Fill(items, null, start, Size)`. */
  function ClearRegion(a: seq<Slot>, start: int): (r: seq<Slot>)
    requires 0 <= start && start + Size <= |a|
    ensures |r| == |a|
    ensures forall i | 0 <= i < |a| :: r[i] == if start <= i < start + Size then None else a[i]
  {
    a[..start] + seq(Size, _ => None) + a[start + Size..]
  }

  /** `Rent()`: the returned index, the new pool, and whether the array was
      replaced (after which the caller's entities are relocated).

      A queued index is reused first, oldest first, and its region in the
      current array is nulled; an index whose region lies outside the array
      makes the fill throw. Otherwise the next fresh index is handed out;
      the array's logical length is first set to cover exactly the regions
      already rented, so growing copies all of them. */
  function Rent(p: Pool): (r: Result<(int, Pool, bool)>)
    requires p.Valid()
    ensures r.Ok? ==> r.value.1.Valid()
    // reuse
    ensures |p.holes| > 0 ==>
      (r.Ok? <==> 0 <= Size * p.holes[0] && Size * p.holes[0] + Size <= |p.Current()|)
    ensures |p.holes| > 0 && r.Ok? ==>
      var (index, q, grew) := r.value;
      && index == p.holes[0] && q.holes == p.holes[1..] && q.count == p.count && !grew
      && |q.gens| == |p.gens| && q.gens[..|p.gens| - 1] == p.gens[..|p.gens| - 1]
      && q.Current() == ClearRegion(p.Current(), Size * index)
    // fresh index
    ensures |p.holes| == 0 ==> r.Ok?
    ensures |p.holes| == 0 ==>
      var (index, q, grew) := r.value;
      && index == p.count && q.count == p.count + 1 && q.holes == p.holes
      && (grew <==> |p.Current()| < Size * (p.count + 1))
      && (!grew ==> q.gens == p.gens)
      && (grew ==> |q.gens| == |p.gens| + 1 && q.gens[..|p.gens|] == p.gens)
      && (grew ==> |q.Current()| == Vec.GrownCapacity(|p.Current()|, Size * (p.count + 1)))
      && (grew ==> q.Current()[..Size * p.count] == p.Current()[..Size * p.count])
      && (grew ==> forall i | Size * p.count <= i < |q.Current()| :: q.Current()[i].None?)
  {
    var cur := p.Current();
    if |p.holes| > 0 then
      var index := p.holes[0];
      if 0 <= Size * index && Size * index + Size <= |cur| then
        Ok((index, Pool(p.gens[|p.gens| - 1 := ClearRegion(cur, Size * index)], p.count, p.holes[1..]), false))
      else Err("ArgumentOutOfRangeException")
    else
      var (grew, v) := Vec.EnsureCapacity(Vec.Vec(cur, Size * p.count), Size * (p.count + 1), None);
      if grew then
        assert v.items[..Size * p.count] == Vec.Live(v);
        Ok((p.count, Pool(p.gens + [v.items], p.count + 1, p.holes), true))
      else Ok((p.count, Pool(p.gens, p.count + 1, p.holes), false))
  }

  /** `Ret(index)`: only enqueues; the region is not cleared and a second
      return of the same index is not rejected. */
  function Ret(p: Pool, index: int): (q: Pool)
    ensures q.holes == p.holes + [index]
    ensures q.gens == p.gens && q.count == p.count
  {
    p.(holes := p.holes + [index])
  }

  /** `Get(index)`: the `Size` slots starting at `Size * index` of the
      current array; a region outside the array throws. */
  function Get(p: Pool, index: int): (r: Result<View>)
    requires p.Valid()
    ensures r.Ok? <==> 0 <= Size * index && Size * index + Size <= |p.Current()|
    ensures r.Ok? ==> r.value == View(|p.gens| - 1, Size * index)
  {
    if 0 <= Size * index && Size * index + Size <= |p.Current()| then Ok(View(|p.gens| - 1, Size * index))
    else Err("ArgumentOutOfRangeException")
  }

  /** Slot `t` of a view, read through the array the view was taken from
      (a view that does not fit reads as empty). */
  function Read(p: Pool, v: View, t: CompType): Slot {
    if v.gen < |p.gens| && 0 <= v.start && v.start + Size <= |p.gens[v.gen]| then
      p.gens[v.gen][v.start + Ord(t)]
    else None
  }

  /** Writing slot `t` of a view writes the array the view was taken from. */
  function Write(p: Pool, v: View, t: CompType, c: Slot): (q: Pool)
    ensures q.count == p.count && q.holes == p.holes && |q.gens| == |p.gens|
    ensures forall g | 0 <= g < |p.gens| :: |q.gens[g]| == |p.gens[g]|
    ensures p.Valid() ==> q.Valid()
  {
    if v.gen < |p.gens| && 0 <= v.start && v.start + Size <= |p.gens[v.gen]| then
      p.(gens := p.gens[v.gen := p.gens[v.gen][v.start + Ord(t) := c]])
    else p
  }

  /** A write is read back through the same view and leaves every other
      slot of that view alone. */
  lemma ReadWrite(p: Pool, v: View, t: CompType, u: CompType, c: Slot)
    requires v.gen < |p.gens| && 0 <= v.start && v.start + Size <= |p.gens[v.gen]|
    ensures Read(Write(p, v, t, c), v, t) == c
    ensures u != t ==> Read(Write(p, v, t, c), v, u) == Read(p, v, u)
  {
    OrdBijection(t, Ord(u));
  }

  /** The regions of two distinct indices are disjoint. */
  lemma RegionsDisjoint(i: int, j: int, s: int, t: int)
    requires i != j && 0 <= s < Size && 0 <= t < Size
    ensures Size * i + s != Size * j + t
  {
  }

  /** What every reachable pool satisfies: each queued index names a region
      below `Count`, and every slot past the rented regions of the current
      array is null. */
  predicate Clean(p: Pool)
    requires p.Valid()
  {
    && (forall k | 0 <= k < |p.holes| :: 0 <= p.holes[k] < p.count)
    && (forall i | Size * p.count <= i < |p.Current()| :: p.Current()[i].None?)
  }

  lemma NewPoolClean()
    ensures Clean(NewPool())
  {
  }

  /** Renting from a clean pool hands out an index below the new `Count`
      whose region in the current array is entirely null, and keeps the pool
      clean. */
  lemma RentClean(p: Pool)
    requires p.Valid() && Clean(p)
    ensures Rent(p).Ok?
    ensures var (index, q, _) := Rent(p).value;
      && Clean(q) && 0 <= index < q.count && q.count >= p.count
      && Get(q, index).Ok?
      && forall t :: Read(q, Get(q, index).value, t).None?
  {
    var (index, q, grew) := Rent(p).value;
    if |p.holes| > 0 {
      assert Size * p.holes[0] + Size <= Size * p.count;
      assert forall k | 0 <= k < |q.holes| :: q.holes[k] == p.holes[k + 1];
    }
    forall t
      ensures Read(q, Get(q, index).value, t).None?
    {
      var i := Size * index + Ord(t);
      assert Read(q, Get(q, index).value, t) == q.Current()[i];
    }
  }

  /** Writing through a view of an old array, or into a region below
      `Count` of the current one, keeps the pool clean. */
  lemma WriteKeepsClean(p: Pool, v: View, t: CompType, c: Slot)
    requires p.Valid() && Clean(p)
    requires v.gen != |p.gens| - 1 || v.start + Size <= Size * p.count
    ensures Write(p, v, t, c).Valid() && Clean(Write(p, v, t, c))
  {
    var q := Write(p, v, t, c);
    if v.gen == |p.gens| - 1 && 0 <= v.start && v.start + Size <= |p.gens[v.gen]| {
      assert q.Current() == p.Current()[v.start + Ord(t) := c];
    } else {
      assert q.Current() == p.Current();
    }
  }

  /** Returning an index below `Count` keeps the pool clean. */
  lemma RetKeepsClean(p: Pool, index: int)
    requires p.Valid() && Clean(p) && 0 <= index < p.count
    ensures Ret(p, index).Valid() && Clean(Ret(p, index))
  {
    assert Ret(p, index).Current() == p.Current();
  }

  /** The bookkeeping of which indices are rented: every index below
      `Count` is either rented or queued, not both, and the queue holds no
      index twice. */
  ghost predicate Tracks(p: Pool, rented: set<int>) {
    && (forall i :: i in rented <==> 0 <= i < p.count && i !in p.holes)
    && (forall k | 0 <= k < |p.holes| :: 0 <= p.holes[k] < p.count)
    && (forall k, l | 0 <= k < l < |p.holes| :: p.holes[k] != p.holes[l])
  }

  /** As long as only rented indices are returned, and each once, `Rent`
      succeeds and never hands out an index that is currently rented. */
  lemma RentFresh(p: Pool, rented: set<int>)
    requires p.Valid() && Tracks(p, rented)
    ensures Rent(p).Ok?
    ensures Rent(p).value.0 !in rented
    ensures Tracks(Rent(p).value.1, rented + {Rent(p).value.0})
  {
    var (index, q, _) := Rent(p).value;
    if |p.holes| > 0 {
      assert Size * p.holes[0] + Size <= Size * p.count;
      assert forall k | 0 <= k < |q.holes| :: q.holes[k] == p.holes[k + 1];
    }
  }

  /** Returning a rented index keeps the bookkeeping. */
  lemma RetKeeps(p: Pool, rented: set<int>, index: int)
    requires Tracks(p, rented) && index in rented
    ensures Tracks(Ret(p, index), rented - {index})
  {
  }

  /** Returning one index twice makes two later rents hand it out twice. */
  lemma DoubleRetSharesIndex(p: Pool, k: int)
    requires p.Valid() && p.holes == [] && 0 <= k < p.count
    ensures var q := Ret(Ret(p, k), k);
      && Rent(q).Ok? && Rent(q).value.0 == k
      && Rent(Rent(q).value.1).Ok? && Rent(Rent(q).value.1).value.0 == k
  {
    var q := Ret(Ret(p, k), k);
    assert q.holes == [k, k];
    assert Size * k + Size <= Size * p.count;
    assert Rent(q).value.1.holes == [k];
  }
}
