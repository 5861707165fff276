/** Items, item stacks and the inventory merge rule
    (New/Shared/Items/Item.cs, New/Shared/Items/ItemStack.cs,
    New/Shared/Components/Inventory.cs). */
module Items {
  import opened Wrappers
  import Vec

  /** An `Item`: its name, the model it is drawn with (`None` for a null
      model; models are read from files, so only an identifier is kept) and
      its id. Items are never mutated. */
  datatype Item = Item(name: string, model: Option<nat>, id: int)

  /** The static registry: the id counter `_id`, the list `_items` and the
      name index `_nameToItem`. */
  datatype Registry = Registry(nextId: int, items: Vec.Vec<Option<Item>>, byName: map<string, Item>)

  /** The registry before any item is constructed: `new Vec<Item>()` has
      the default capacity. */
  function EmptyRegistry(): (r: Registry)
    ensures Valid(r) && r.items.count == 0 && |r.items.items| == Vec.DefaultCapacity
  {
    Registry(0, Vec.Vec([None, None, None, None], 0), map[])
  }

  /** The registry invariant: `_items[i]` is the item with id `i`, and the
      counter equals the number of items. */
  predicate Valid(r: Registry) {
    && r.items.Valid()
    && r.nextId == r.items.count
    && (forall i | 0 <= i < r.items.count :: r.items.items[i].Some? && r.items.items[i].value.id == i)
    && (forall i | r.items.count <= i < |r.items.items| :: r.items.items[i].None?)
  }

  /** The private constructor `Item(name, model)`: takes the next id, appends
      to the list and (re)binds the name. */
  function Register(r: Registry, name: string, model: Option<nat>): (res: (Item, Registry))
    requires Valid(r)
    ensures Valid(res.1)
    ensures res.0 == Item(name, model, r.nextId)
    ensures Vec.Live(res.1.items) == Vec.Live(r.items) + [Some(res.0)]
    ensures res.1.byName == r.byName[name := res.0]
  {
    var it := Item(name, model, r.nextId);
    var items := Vec.Add(r.items, Some(it), None);
    assert forall i | 0 <= i < r.items.count :: items.items[i] == Vec.Live(items)[i] == Vec.Live(r.items)[i];
    assert items.items[r.items.count] == Vec.Live(items)[r.items.count];
    assert forall i | items.count <= i < |items.items| :: items.items[i].None? by {
      if r.items.count < |r.items.items| {
        assert forall i | items.count <= i < |items.items| :: items.items[i] == r.items.items[i];
      } else {
        assert forall i | items.count <= i < |items.items| :: items.items[i] == None;
      }
    }
    (it, Registry(r.nextId + 1, items, r.byName[name := it]))
  }

  /** The log model's identifier (`Model3d.Read("log")`). */
  const LogModel: nat := 0

  /** The two static items, constructed in declaration order. */
  function Statics(): (r: (Item, Item, Registry))
    ensures Valid(r.2)
  {
    var (air, r1) := Register(EmptyRegistry(), "air", None);
    var (wood, r2) := Register(r1, "wood", Some(LogModel));
    (air, wood, r2)
  }

  /** Ids follow construction order: `AIR` is 0 and `WOOD` is 1. */
  lemma StaticIds()
    ensures Statics().0.id == 0 && Statics().1.id == 1
    ensures Statics().2.items.count == 2
  {
  }

  /** `Count`. */
  function Count(r: Registry): int {
    r.items.count
  }

  /** `Get(int id)`: the indexer reads the backing array without checking
      `Count`, so an id in [Count, capacity) yields null, and an id outside
      the array throws. */
  function GetById(r: Registry, id: int): (res: Result<Option<Item>>)
    requires Valid(r)
    ensures res.Ok? <==> 0 <= id < |r.items.items|
    ensures 0 <= id < Count(r) ==> res.Ok? && res.value.Some? && res.value.value.id == id
    ensures Count(r) <= id < |r.items.items| ==> res == Ok(None)
  {
    if 0 <= id < |r.items.items| then Ok(r.items.items[id]) else Err("IndexOutOfRangeException")
  }

  /** `Get(string name)`: the item last registered under `name`; an unknown
      name throws. */
  function GetByName(r: Registry, name: string): (res: Result<Item>)
    ensures res.Ok? <==> name in r.byName
    ensures res.Ok? ==> res.value == r.byName[name]
  {
    if name in r.byName then Ok(r.byName[name]) else Err("item not found")
  }

  /** A later registration under the same name shadows the earlier one for
      `Get(name)`, while both stay reachable by id. */
  lemma GetByNameLastWins(r: Registry, name: string, m1: Option<nat>, m2: Option<nat>)
    requires Valid(r)
    ensures var (a, r1) := Register(r, name, m1);
            var (b, r2) := Register(r1, name, m2);
            && GetByName(r2, name) == Ok(b) && a != b
            && GetById(r2, a.id) == Ok(Some(a)) && GetById(r2, b.id) == Ok(Some(b))
  {
  }

  /** `Item ==`: compares ids through `?.`, so two nulls are equal and a null
      never equals an item. */
  function ItemEq(a: Option<Item>, b: Option<Item>): (r: bool)
    ensures a.None? && b.None? ==> r
    ensures a.None? != b.None? ==> !r
    ensures a.Some? && b.Some? ==> (r <==> a.value.id == b.value.id)
  {
    (if a.Some? then Some(a.value.id) else None) == (if b.Some? then Some(b.value.id) else None)
  }

  /** `Item.GetHashCode`: the id. */
  function ItemHash(a: Item): int {
    a.id
  }

  /** `Item ==` is an equivalence, and equal items hash alike. */
  lemma ItemEqEquivalence(a: Option<Item>, b: Option<Item>, c: Option<Item>)
    ensures ItemEq(a, a)
    ensures ItemEq(a, b) == ItemEq(b, a)
    ensures ItemEq(a, b) && ItemEq(b, c) ==> ItemEq(a, c)
    ensures a.Some? && b.Some? && ItemEq(a, b) ==> ItemHash(a.value) == ItemHash(b.value)
  {
  }

  /** C#'s `uint` range, for stack sizes. */
  const UIntSpan: nat := 0x1_0000_0000

  /** An `ItemStack`: its mutable `Size` (a `uint`) and its item. */
  datatype Stack = Stack(size: nat, item: Option<Item>)

  /** `new ItemStack()`: `(AIR, 0)`. */
  function DefaultStack(air: Item): (s: Stack)
    ensures s.size == 0 && s.item == Some(air)
  {
    Stack(0, Some(air))
  }

  /** `ItemStack ==`: both the item (through `Item ==`) and the size are
      compared through `?.`, so two nulls are equal and null never equals a
      stack. */
  function StackEq(a: Option<Stack>, b: Option<Stack>): (r: bool)
    ensures a.None? && b.None? ==> r
    ensures a.None? != b.None? ==> !r
    ensures a.Some? && b.Some? ==>
      (r <==> ItemEq(a.value.item, b.value.item) && a.value.size == b.value.size)
  {
    var ia := if a.Some? then a.value.item else None;
    var ib := if b.Some? then b.value.item else None;
    var sa := if a.Some? then Some(a.value.size) else None;
    var sb := if b.Some? then Some(b.value.size) else None;
    ItemEq(ia, ib) && sa == sb
  }

  /** `!=` negates `==`. */
  function StackNe(a: Option<Stack>, b: Option<Stack>): (r: bool)
    ensures r <==> !StackEq(a, b)
  {
    !StackEq(a, b)
  }

  /** `Equals(object)`: a stack against a non-null stack argument defers to
      `==`; a null argument is never equal. */
  function StackEquals(a: Stack, obj: Option<Stack>): (r: bool)
    ensures obj.Some? ==> (r <==> StackEq(Some(a), obj))
    ensures obj.None? ==> !r
  {
    obj.Some? && StackEq(Some(a), obj)
  }

  /** `HashCode.Combine(Item, Size)`, with the per-process combiner as a
      parameter and a null item hashing to 0. */
  function StackHash(combine: (int, nat) -> int, s: Stack): int {
    combine(if s.item.Some? then ItemHash(s.item.value) else 0, s.size)
  }

  /** Equal stacks have equal hash codes, whatever the combiner. */
  lemma StackHashConsistent(combine: (int, nat) -> int, a: Stack, b: Stack)
    requires StackEq(Some(a), Some(b))
    ensures StackHash(combine, a) == StackHash(combine, b)
  {
  }

  /** The predicate `i => i.Item == stack.Item` at stored position `j`
      compares two live stacks and finds their items unequal. */
  predicate Misses(heap: seq<Stack>, refs: seq<nat>, stack: nat, j: nat)
    requires j < |refs|
  {
    refs[j] < |heap| && stack < |heap| && !ItemEq(heap[refs[j]].item, heap[stack].item)
  }

  /** `_items.Find(i => i.Item == stack.Item)`: the position of the first
      stored stack whose item equals the added stack's. The predicate reads
      `i.Item` and then `stack.Item`, so a null stored entry, or a null
      added stack, reached before a match throws; an empty list never calls
      the predicate. A dangling reference is a null. */
  function FindStack(heap: seq<Stack>, refs: seq<nat>, stack: nat): (r: Result<Option<nat>>)
    ensures r.Ok? && r.value.Some? ==>
      && r.value.value < |refs| && refs[r.value.value] < |heap| && stack < |heap|
      && ItemEq(heap[refs[r.value.value]].item, heap[stack].item)
      && forall j | 0 <= j < r.value.value :: Misses(heap, refs, stack, j)
    ensures r.Ok? && r.value.None? ==> forall j | 0 <= j < |refs| :: Misses(heap, refs, stack, j)
    ensures r.Err? ==> exists j | 0 <= j < |refs| ::
      (refs[j] >= |heap| || stack >= |heap|) && forall i | 0 <= i < j :: Misses(heap, refs, stack, i)
    decreases |refs|, 1
  {
    if |refs| == 0 then Ok(None)
    else if refs[0] >= |heap| || stack >= |heap| then Err("NullReferenceException")
    else if ItemEq(heap[refs[0]].item, heap[stack].item) then Ok(Some(0))
    else
      var rest := FindStack(heap, refs[1..], stack);
      FindShift(heap, refs, stack);
      match rest
      case Err(m) => Err(m)
      case Ok(None) => Ok(None)
      case Ok(Some(k)) => Ok(Some(k + 1))
  }

  /** When the first stored stack is missed, the search over the rest
      answers for the whole list, one position further on. */
  lemma {:induction false} FindShift(heap: seq<Stack>, refs: seq<nat>, stack: nat)
    requires |refs| > 0 && Misses(heap, refs, stack, 0)
    ensures var rest := FindStack(heap, refs[1..], stack);
      && (rest.Err? ==> exists j | 0 <= j < |refs| ::
           (refs[j] >= |heap| || stack >= |heap|) && forall i | 0 <= i < j :: Misses(heap, refs, stack, i))
      && (rest.Ok? && rest.value.None? ==> forall j | 0 <= j < |refs| :: Misses(heap, refs, stack, j))
      && (rest.Ok? && rest.value.Some? ==>
           && rest.value.value + 1 < |refs| && refs[rest.value.value + 1] < |heap|
           && ItemEq(heap[refs[rest.value.value + 1]].item, heap[stack].item)
           && forall j | 0 <= j < rest.value.value + 1 :: Misses(heap, refs, stack, j))
    decreases |refs|, 0
  {
    var t := refs[1..];
    var rest := FindStack(heap, t, stack);
    var n := if rest.Err? then |t| else if rest.value.None? then |t| else rest.value.value;
    if rest.Err? {
      var j :| 0 <= j < |t| && (t[j] >= |heap| || stack >= |heap|) && forall i | 0 <= i < j :: Misses(heap, t, stack, i);
      n := j;
      assert refs[j + 1] == t[j];
    }
    assert n <= |t|;
    forall i | 0 <= i < n + 1
      ensures Misses(heap, refs, stack, i)
    {
      if i > 0 {
        assert Misses(heap, t, stack, i - 1);
        assert refs[i] == t[i - 1];
      }
    }
    if rest.Ok? && rest.value.Some? {
      assert refs[n + 1] == t[n];
    }
  }

  /** With every stored reference and the added stack live, the search
      never throws; with a null added stack it throws unless the list is
      empty. */
  lemma FindStackOk(heap: seq<Stack>, refs: seq<nat>, stack: nat)
    ensures (forall j | 0 <= j < |refs| :: refs[j] < |heap|) && stack < |heap| ==> FindStack(heap, refs, stack).Ok?
    ensures stack >= |heap| ==> (FindStack(heap, refs, stack).Ok? <==> |refs| == 0)
  {
    if (forall j | 0 <= j < |refs| :: refs[j] < |heap|) && stack < |heap| && FindStack(heap, refs, stack).Err? {
      assert false;
    }
  }

  /** `Inventory.Add(stack)` over the stack heap: `refs` is the inventory's
      list of stack references. When a stored stack has the same item, that
      first one grows by the added size, wrapping as a `uint`; otherwise the
      given stack object itself is appended, a null one included when the
      list is empty. The search throws as `FindStack` says. */
  function InventoryAdd(heap: seq<Stack>, refs: seq<nat>, stack: nat): (r: Result<(seq<Stack>, seq<nat>)>)
    ensures r.Ok? <==> FindStack(heap, refs, stack).Ok?
    ensures |refs| == 0 ==> r == Ok((heap, [stack]))
    ensures stack >= |heap| ==> (r.Ok? <==> |refs| == 0)
    ensures (forall j | 0 <= j < |refs| :: refs[j] < |heap|) && stack < |heap| ==> r.Ok?
    ensures r.Ok? && FindStack(heap, refs, stack).value.None? ==>
      r.value == (heap, refs + [stack])
    ensures r.Ok? && FindStack(heap, refs, stack).value.Some? ==>
      var k := refs[FindStack(heap, refs, stack).value.value];
      && r.value.1 == refs
      && r.value.0 == heap[k := Stack((heap[k].size + heap[stack].size) % UIntSpan, heap[k].item)]
  {
    FindStackOk(heap, refs, stack);
    assert |refs| == 0 ==> refs + [stack] == [stack];
    match FindStack(heap, refs, stack)
    case Err(m) => Err(m)
    case Ok(None) => Ok((heap, refs + [stack]))
    case Ok(Some(i)) =>
      var k := refs[i];
      Ok((heap[k := Stack((heap[k].size + heap[stack].size) % UIntSpan, heap[k].item)], refs))
  }

  /** No two stored stacks share an item, and every stored reference is
      live. */
  predicate DistinctItems(heap: seq<Stack>, refs: seq<nat>) {
    && (forall i | 0 <= i < |refs| :: refs[i] < |heap|)
    && (forall i, j | 0 <= i < j < |refs| :: !ItemEq(heap[refs[i]].item, heap[refs[j]].item))
  }

  /** `Add` keeps the stored items pairwise distinct, and changes no stack of
      another item: only the merged stack's size can differ. */
  lemma InventoryAddKeepsDistinct(heap: seq<Stack>, refs: seq<nat>, stack: nat)
    requires DistinctItems(heap, refs) && stack < |heap|
    ensures var r := InventoryAdd(heap, refs, stack).value;
      && DistinctItems(r.0, r.1)
      && |r.0| == |heap|
      && (forall i | 0 <= i < |heap| :: r.0[i].item == heap[i].item)
      && (forall i | 0 <= i < |heap| && !ItemEq(heap[i].item, heap[stack].item) :: r.0[i] == heap[i])
  {
    var r := InventoryAdd(heap, refs, stack).value;
    assert forall i | 0 <= i < |heap| :: r.0[i].item == heap[i].item;
    assert forall i | 0 <= i < |r.1| :: r.0[r.1[i]].item == heap[r.1[i]].item;
    ItemEqEquivalence(None, None, None);
    if FindStack(heap, refs, stack).value.None? {
      forall i, j | 0 <= i < j < |r.1|
        ensures !ItemEq(r.0[r.1[i]].item, r.0[r.1[j]].item)
      {
        if j == |refs| {
          assert Misses(heap, refs, stack, i);
          ItemEqEquivalence(heap[refs[i]].item, heap[stack].item, None);
        }
      }
    }
  }

  /** A stack of an item not yet present is appended by reference; adding
      another stack of the same item then merges into that first stack. */
  lemma InventoryMergeExample(air: Item)
    ensures var heap := [Stack(3, Some(air)), Stack(4, Some(air))];
      InventoryAdd(heap, [], 0) == Ok((heap, [0]))
      && InventoryAdd(heap, [0], 1) == Ok(([Stack(7, Some(air)), Stack(4, Some(air))], [0]))
  {
    var heap := [Stack(3, Some(air)), Stack(4, Some(air))];
    assert FindStack(heap, [], 0) == Ok(None);
    assert ItemEq(heap[0].item, heap[1].item);
    assert FindStack(heap, [0], 1) == Ok(Some(0));
    assert (3 + 4) % UIntSpan == 7;
    assert InventoryAdd(heap, [], 0) == Ok((heap, [] + [0]));
    assert [] + [0] == [0];
    assert InventoryAdd(heap, [0], 1) == Ok((heap[0 := Stack(7, Some(air))], [0]));
    assert heap[0 := Stack(7, Some(air))] == [Stack(7, Some(air)), Stack(4, Some(air))];
  }

  /** The null paths: a null stack added to an empty inventory is appended
      without the predicate being called, and a null stored entry reached
      before a match throws. */
  lemma InventoryNullPaths(it: Item)
    ensures InventoryAdd([], [], 0) == Ok(([], [0]))
    ensures FindStack([Stack(1, Some(it))], [5, 0], 0).Err?
    ensures InventoryAdd([Stack(1, Some(it))], [5, 0], 0).Err?
  {
  }
}
