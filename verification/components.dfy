/** The closed set of component kinds and the component objects themselves
    (New/Shared/Components/Component.cs and the concrete components).

    A component is a reference object in the source; here it is a value
    kept in the game's component heap and addressed by index. Its kind is
    not a stored field: it is determined by the body's class, so no update
    of a component's fields can change it. */
module Components {
  import opened Wrappers
  import opened Maths
  import Items

  /** `CompType`, in declaration order; `Size` is not a kind. */
  datatype CompType = Camera | Collision | Model3D | Play | Snow | Tree | Drop | ItemDrop | Inventory | Life

  /** `(int)CompType.Size`: the number of slots per entity. */
  const Size: nat := 10

  /** All kinds, in declaration order. */
  const Kinds: seq<CompType> := [Camera, Collision, Model3D, Play, Snow, Tree, Drop, ItemDrop, Inventory, Life]

  /** `(int)t`: the kind's position in the declaration. */
  function Ord(t: CompType): (n: nat)
    ensures n < Size && Kinds[n] == t
  {
    match t
    case Camera => 0
    case Collision => 1
    case Model3D => 2
    case Play => 3
    case Snow => 4
    case Tree => 5
    case Drop => 6
    case ItemDrop => 7
    case Inventory => 8
    case Life => 9
  }

  /** `(CompType)n`, defined only on the ten kinds. */
  function FromOrd(n: int): (r: Option<CompType>)
    ensures r.Some? <==> 0 <= n < Size
  {
    if 0 <= n < Size then Some(Kinds[n]) else None
  }

  /** The enumeration has exactly `Size` kinds, pairwise distinct, and the
      two conversions are mutually inverse. */
  lemma OrdBijection(t: CompType, n: int)
    ensures |Kinds| == Size
    ensures FromOrd(Ord(t)) == Some(t)
    ensures FromOrd(n).Some? ==> Ord(FromOrd(n).value) == n
    ensures forall i, j | 0 <= i < j < |Kinds| :: Kinds[i] != Kinds[j]
  {
  }

  /** C#'s `uint`. */
  type UInt = n: nat | n < 0x1_0000_0000

  /** The runtime class of a component; one concrete class per kind in this
      model (`MeshCollision<T>` is the only `Collision`). */
  datatype Body =
    | CameraBody
    | CollisionBody(model: nat)
    | ModelBody(model: nat, rotation: real)
    | PlayBody
    | SnowBody(dir: V3, mul: int, offset: int)
    | TreeBody
    | DropBody(item: Items.Item, min: UInt, max: UInt)
    | ItemDropBody(stack: nat, velo: V3)
    | InventoryBody(items: seq<nat>)
    | LifeBody(health: int)

  /** The kind a class passes to the base constructor. */
  function KindOf(b: Body): (t: CompType)
    ensures b.CollisionBody? <==> t == Collision
    ensures b.ModelBody? <==> t == Model3D
    ensures b.LifeBody? <==> t == Life
    ensures b.InventoryBody? <==> t == Inventory
    ensures b.ItemDropBody? <==> t == ItemDrop
    ensures b.DropBody? <==> t == Drop
  {
    match b
    case CameraBody => Camera
    case CollisionBody(_) => Collision
    case ModelBody(_, _) => Model3D
    case PlayBody => Play
    case SnowBody(_, _, _) => Snow
    case TreeBody => Tree
    case DropBody(_, _, _) => Drop
    case ItemDropBody(_, _) => ItemDrop
    case InventoryBody(_) => Inventory
    case LifeBody(_) => Life
  }

  /** A component: its class and fields, and its owner `Me` (an entity
      reference, `None` until the component is added). */
  datatype Component = Component(body: Body, me: Option<nat>) {
    function Type(): CompType {
      KindOf(body)
    }
  }

  /** Two bodies of the same class. */
  predicate SameClass(a: Body, b: Body) {
    KindOf(a) == KindOf(b)
  }

  /** `GetHashCode`: the hash of the runtime class, given as `classHash`. */
  function HashCode(classHash: CompType -> int, c: Component): (h: int)
  {
    classHash(KindOf(c.body))
  }

  /** The hash ignores every field and the owner: two components of the same
      class hash alike, and `Type` is the same for both. */
  lemma HashByClass(classHash: CompType -> int, c: Component, d: Component)
    requires SameClass(c.body, d.body)
    ensures HashCode(classHash, c) == HashCode(classHash, d)
    ensures c.Type() == d.Type()
  {
  }

  /** `new Life(health)`: the `Health` setter runs before `Me` is assigned,
      so a negative health dereferences the null owner and throws. */
  function NewLife(health: int): (r: Result<Component>)
    ensures r.Ok? <==> health >= 0
    ensures r.Ok? ==> r.value == Component(LifeBody(health), None) && r.value.Type() == Life
  {
    if health < 0 then Err("NullReferenceException") else Ok(Component(LifeBody(health), None))
  }

  /** `InteractType`, `Hand` and `Interaction` (New/Shared/Interaction.cs);
      `src` is an entity reference or `None` for `null`. */
  datatype InteractType = Hit | Use | Pickup
  datatype Hand = Left | Right
  datatype Interaction = Interaction(src: Option<nat>, hand: Hand, kind: InteractType)
}
