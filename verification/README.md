# A verified model of the game core of `New`

`New` is a small voxel-style game written in C# on OpenTK. This project models its sequential core in Dafny and proves properties of that model. The core covers:

- the storage of entities and their components;
- the world tick, its render selection and its ray cast;
- the gameplay hooks that spawn and remove entities;
- the mesh and buffer bookkeeping beneath chunks and collision;
- a handful of small pure rules: items, inventories, text formats, shader settings, tweens, the UI layout.

Rendering is treated as an opaque effect. Where the model computes what is drawn, it records it as a list.

## How the model is built

- **Exceptions and null.** A C# exception thrown by modelled code becomes `Wrappers.Result.Err`. A C# `null` becomes `Option.None`.
- **Integers and floats.** Integers are unbounded; the `uint` type `Components.UInt` and the unchecked casts between `uint` and `int` in `Rand` are written out. Other `int` arithmetic is assumed not to overflow; the places where that matters are listed under "## Left out". Floats and doubles are exact `real`s, and single-precision rounding is not modelled. The float-to-int cast is `Maths.Trunc`, which rounds toward zero.
- **Foreign code as parameters.** Code outside the model is passed in as a parameter:
  - the random source `Random.Shared`, as a stream of draws `draw` plus a position in it;
  - the terrain height `noise`;
  - `ArrayPool.Rent`, as `grant`;
  - the player entity;
  - the clock `now`;
  - the cursor position;
  - `atan2`, `MathHelper.Lerp`, `float.Parse` and `int.Parse`;
  - the tween easing curves.

### Storage

- **`Vec`** (`New/Shared/Vec.cs`): a backing array plus a live count.
  - Slots past the count keep stale values, so the fast `Clear` is visible.
  - `RemoveAll` is proved to keep exactly the non-matching elements in order.
  - `Insert` and `RemoveAt` are proved inverse.
- **`Pool`** (`New/Shared/Components/ComponentPool.cs`): the component slab.
  - Every entity owns a region of ten slots, one per component kind.
  - Returned indices wait in a FIFO queue.
  - Growing the pool replaces the backing array. The model keeps every array generation, so an entity that is not relocated keeps a stale view, as in the source.
- **`Components`** (`New/Shared/Components/Component.cs`): the ten component kinds and their bodies.
- **`Entities`** (`New/Shared/Entity.cs`): ids, transforms, the kind-indexed slot view, equality by id, `GetMesh` and the chunk position.

### The world and its gameplay

- **`GameState`**: the object graph.
  - Entities, components and item stacks are heaps addressed by index.
  - The component hooks are written as functions from state to state: `Tree`, `Snow`, `ItemDrop`, `Drop` and `Life`, together with `Entity.Update`, `Die` and `Interact`.
- **`Worlds`** (`New/Shared/Worlds/World.cs`): the rest of the world.
  - **`Add`** puts an entity straight into `Objs` when there is room, and otherwise queues it in `ObjsToAdd`.
  - **`Update`** runs in this order:
    1. the activation pass, which uses the inclusive 18432 distance gate and re-reads `Objs.Count`;
    2. the merge of the queued entities;
    3. the removal of dead entities, with their `Die` hooks;
    4. chunk streaming over a ±12 window.
  - **Render selection** decides which chunks and entities are drawn, in drawing order.
- **`Raycasts`** and **`HitResults`**: the nearest hit within reach, with the following rules.
  - Entities are tested first and replace the best hit only on a strict improvement.
  - The 3 × 3 terrain chunks come next and win ties.
- **`Items`** (`New/Shared/Items/Item.cs`, `ItemStack.cs`, `New/Shared/Components/Inventory.cs`):
  - the item registry;
  - stack equality and hashing;
  - the inventory merge rule.

### Meshes

- **`Meshes`** (`New/Engine/Mesh.cs`): the builder with its `Begin`/`End` state machine, plus `ClosestVertex` and `SetPos`.
- **`Buffers`** (`New/Engine/Ibo.cs`, `Vbo.cs`): the doubling index and vertex buffers.
- **`Chunks`** (`New/Shared/Worlds/Chunk.cs`): the memoised 9 × 9 lattice. Each of the 81 vertices is emitted once, forming 64 quads.
- **`Collision`** and **`MeshCollisions`** (`New/Shared/Components/MeshCollision.cs`): the Möller–Trumbore ray test, scanned first-hit over a mesh's whole triangle array.

### Small rules

- **`Maths`**: the helpers of `New/Shared/Maths.cs`.
- **`Rand`** and **`Extensions`**: the random helpers, content printing and chunk coordinates of `New/Shared/Extensions.cs`.
- **`FontFormats`** (`New/Shared/FontFormat.cs`).
- **`RollingAverages`** (`New/Shared/RollingAverage.cs`).
- **`Tweens`** (`New/Shared/Tweens/`).
- **`ShaderSettings`** (`New/Engine/ShaderSetting.cs`).
- **`Ui`**: `New/Shared/Screens/Element.cs` and `Window.cs`, with the constants of `Screen.cs`.

### Notes on the code

- **As written.** The operations follow the code as written, including the defects listed under "## Findings". Each finding also has a corrected definition with its intended property proved, but the rest of the model does not use it.
- **Chunk coordinates.** World coordinates become chunk coordinates by truncating toward zero and then shifting right arithmetically by 4 (`Extensions.ChunkCoord`, `Entities.ChunkPos`). This is not the floor of `x / 16`. The two rules differ exactly on the intervals (-16k-1, -16k) for k ≥ 0. For example, -0.5 lies in chunk 0 and -16.5 in chunk -1, where flooring would give -1 and -2.
- **Chunk vertices.** `Chunk.cs` lines 34-43 assign the result of `Mesh.Put(...)` to an `int`. `Put` returns the mesh itself (`Mesh.cs` lines 42-46), so these lines do not type-check as written. The model reads each of them as `Put` followed by `Next()`, which is what the memo needs: the index of the vertex just written (`Meshes.Emit`).
- **Null guards on `Objs`.** The loops of `World.Update`, `Render` and `Raycast` (`World.cs` lines 38, 89 and 121) begin with `if (objs[i] == null) continue;`. The comparison binds to `Entity`'s `==` (`Entity.cs` lines 102-105), `one?.Equals(two) ?? false`, which is false even for two nulls (`Entities.EntityEqProperties`). So the guard never skips, and a null entry is dereferenced on the next line and throws `NullReferenceException`. The model throws there (`Worlds.ActivateAt`, `Worlds.RenderEntities`, `Raycasts.EntityCandidate`). The removal pass leaves no null listed (`Worlds.RemoveDeadClears`), so the guard is dead code rather than a defect the game reaches.
- **Call names.** `World.cs` calls `Maths.wrap_degrees`, `Maths.calc_angle` and `Maths.calc_angle_xz` (lines 81 and 92) and `ray_collides` (lines 127 and 144). `Maths.cs` lines 7-17 and `MeshCollision.cs` define these as `WrapDegrees`, `CalcAngle`, `CalcAngleXz` and `RayCollides`. The model reads each call as the definition of the same name in PascalCase (`Maths.WrapDegrees`, `Worlds.CalcAngleXz`, `MeshCollisions.MeshRayCollides`).
- **Window construction.** `new Window()` cannot succeed. Its constructor adds the close button, and `OnAddChild` assigns the button's `X`, whose setter throws `NotImplementedException` (`Ui.NewWindowThrows`). Windows are therefore modelled from their state onward.

## Model

| member | source | states |
|---|---|---|
| Vec.New | New/Shared/Vec.cs:30-33 | a new Vec is empty with `capacity` default slots; a negative capacity throws |
| Vec.SetCapacity | New/Shared/Vec.cs:37-55 | the `Capacity` setter keeps the first `Count` elements when it reallocates, and installs the empty array without touching `Count` for a non-positive value |
| Vec.GrownCapacity | New/Shared/Vec.cs:228-230 | a growth target is at least `min`, at least 4 from an empty array, and at least double a non-empty one |
| Vec.EnsureCapacity | New/Shared/Vec.cs:225-233 | returns false and changes nothing when the array already holds `min`; otherwise it grows to the growth target and keeps the live elements |
| Vec.Add | New/Shared/Vec.cs:64-69 | appends exactly one element after the live ones; it grows only when full |
| Vec.Clear | New/Shared/Vec.cs:175-183 | the fast clear empties the live range and leaves the backing array untouched |
| Vec.ClearSlow | New/Shared/Vec.cs:175-183 | the slow clear resets the live slots to the default and keeps the spare slots |
| Vec.Insert | New/Shared/Vec.cs:114-122 | inserting at an index in [0, Count] puts the element there and shifts the rest right; a negative index throws |
| Vec.RemoveAt | New/Shared/Vec.cs:136-142 | removing at an index in [0, Count) closes the gap and defaults the vacated slot; an empty Vec throws; an index at or past the end removes the last element |
| Vec.InsertThenRemoveAt | New/Shared/Vec.cs:114-142 | removing what was just inserted at the same index restores the live elements |
| Vec.RemoveAtThenInsert | New/Shared/Vec.cs:114-142 | re-inserting a removed element at its index restores the live elements |
| Vec.IndexOf | New/Shared/Vec.cs:109-112 | the index of the first live occurrence, or -1 exactly when the element is not live |
| Vec.Contains | New/Shared/Vec.cs:82-97 | true exactly when the element occurs in the live prefix; spare slots are never searched |
| Vec.KeepContents | New/Shared/Vec.cs:185-193 | the survivors of a removal are exactly the elements the predicate rejects |
| Vec.KeepMatchingSizes | New/Shared/Vec.cs:195-208 | every live element either survives or is reported removed |
| Vec.KeepAppend | New/Shared/Vec.cs:195-208 | filtering distributes over concatenation, so elements appended during a removal are filtered as well |
| Vec.RemoveAll | New/Shared/Vec.cs:195-208 | the survivors are the non-matching elements in their original order, and the callback sees each removed element once, in order |
| Vec.InsertRange | New/Shared/Vec.cs:263-290 | inserting a collection at an index in [0, Count] splices it in; a negative index throws |
| Vec.AddRange | New/Shared/Vec.cs:210-213 | appends the collection after the existing elements, in order |
| Vec.InsertRangeSelf | New/Shared/Vec.cs:272-276 | inserting a Vec into itself splices a copy of its whole old content in at the index |
| Buffers.NewIbo | New/Engine/Ibo.cs:12-17 | a new index buffer is empty with exactly the asked length; a negative length throws |
| Buffers.PutIbo | New/Engine/Ibo.cs:29-40 | appends one index; a full buffer is replaced by one of exactly twice the length, so a zero-length buffer can never take an index |
| Buffers.ClearIbo | New/Engine/Ibo.cs:50-53 | clearing empties the filled range and leaves the contents in place |
| Buffers.PutAllIboLive | New/Engine/Ibo.cs:29-40 | successive puts into a buffer of positive length append exactly the indices put; into a zero-length buffer they throw |
| Buffers.PutAllIboNoGrowth | New/Engine/Ibo.cs:31-36 | a buffer with room for every index never reallocates |
| Buffers.RentLength | New/Engine/Vbo.cs:19 | the pool hands out at least the length asked for |
| Buffers.NewVbo | New/Engine/Vbo.cs:16-21 | a new vertex buffer is empty, with at least the asked length |
| Buffers.PutVbo | New/Engine/Vbo.cs:33-45 | appends one vertex; with room it writes in place, otherwise the new array holds at least twice as many |
| Buffers.PutAllVboLive | New/Engine/Vbo.cs:33-45 | successive puts into a buffer of positive length append exactly the vertices put |
| Buffers.ClearVboAsWritten | New/Engine/Vbo.cs:54-58 | as written, clearing resets the count first and so clears no vertex |
| Buffers.ClearVbo | New/Engine/Vbo.cs:54-58 | the evident clear resets the filled vertices to the default and keeps the rest |
| Buffers.ClearVboAsWrittenKeepsStale | New/Engine/Vbo.cs:54-58 | after one put and the as-written clear, the stale vertex is still in the array, whereas the evident clear erases it |
| Chunks.SlotRoundTrip | New/Shared/Worlds/Chunk.cs:25-43 | the memo index `9x + z` of a lattice point lies in [0, 81) and gives back `x` and `z`, so the 81 points have 81 distinct slots |
| Chunks.Lookup | New/Shared/Worlds/Chunk.cs:33-43 | one memo lookup returns a filled entry for the lattice point, emits a vertex only on a miss, and keeps every entry filled earlier |
| Chunks.Miss | New/Shared/Worlds/Chunk.cs:33-34 | a miss emits the point's vertex as the next index and records that index in the memo |
| Chunks.Corners | New/Shared/Worlds/Chunk.cs:33-43 | the four lookups of a cell yield the memo entries of its four corners, all filled, and emit no index or triangle |
| Chunks.Cell | New/Shared/Worlds/Chunk.cs:31-45 | one loop iteration fills the cell's corners and appends the cell's two triangles after those of the earlier cells |
| Chunks.NewChunk | New/Shared/Worlds/Chunk.cs:19-48 | construction emits each of the 81 lattice vertices exactly once, 384 indices and 128 triangles, two per cell in loop order; the memo is a bijection onto the emitted vertices and the water flag is set exactly when some vertex lies below zero |
| Chunks.Complete | New/Shared/Worlds/Chunk.cs:29-47 | once all 64 cells are done, every lattice point has been emitted exactly once, at the vertex its memo entry names |
| Chunks.PointCovered | New/Shared/Worlds/Chunk.cs:29-43 | every lattice point is a corner of some cell, so no memo entry stays empty |
| Chunks.HeightAtLattice | New/Shared/Worlds/Chunk.cs:75-89 | at an integer point the interpolated height is the noise height there |
| Chunks.HeightAtVertex | New/Shared/Worlds/Chunk.cs:63-89 | the height sampled at a terrain vertex is the height that vertex was built with |
| Chunks.BilinearConstant | New/Shared/Worlds/Chunk.cs:87-88 | over flat ground the interpolation is flat |
| Chunks.BilinearEdge | New/Shared/Worlds/Chunk.cs:87-88 | along a lattice edge the interpolation is the linear one between the two end heights |
| Collision.AcceptAsWritten | New/Shared/Components/MeshCollision.cs:39-60 | as written, a triangle is accepted with distance `t` only when the ray is not parallel, `u` and `v` each lie in [0, 1] and `t > 0.00001`; no test bounds `u + v` |
| Collision.Accept | New/Shared/Components/MeshCollision.cs:39-60 | the corrected decision accepts a subset of what the as-written one accepts, with the same distance, and differs from it only when `u + v > 1` |
| Collision.SolveMeetsPlane | New/Shared/Components/MeshCollision.cs:33-55 | whenever the ray is not parallel to the plane, the computed `u`, `v` and `t` name the same point on the ray and on the triangle's plane |
| Collision.HitAsWrittenInParallelogram | New/Shared/Components/MeshCollision.cs:39-60 | an as-written hit lies in the parallelogram spanned by the two edges, at the ray point of distance `t` |
| Collision.HitInTriangle | New/Shared/Components/MeshCollision.cs:39-60 | a corrected hit lies inside the triangle (`u`, `v` ≥ 0 and `u + v` ≤ 1), at the ray point of distance `t` |
| Collision.AcceptOutside | New/Shared/Components/MeshCollision.cs:46-60 | with `u = v = 0.8` the as-written test accepts and the corrected one rejects |
| Collision.HitAsWrittenOutsideTriangle | New/Shared/Components/MeshCollision.cs:25-60 | a ray straight down through (0.8, 0.8), outside the unit triangle, is reported as a hit at distance 1 |
| Collision.HitOutsideTriangle | New/Shared/Components/MeshCollision.cs:25-60 | the corrected test reports no hit for that ray |
| Collision.ParallelNeverHit | New/Shared/Components/MeshCollision.cs:39-40 | a ray whose determinant `a` has absolute value below 0.00001 is never a hit under either test |
| Collision.DegenerateNeverHit | New/Shared/Components/MeshCollision.cs:31-40 | a triangle whose corners coincide, such as one built from default index records, is hit by no ray under either test |
| Collision.FirstHit | New/Shared/Components/MeshCollision.cs:29-61 | the index of the first triangle, in order, that the source's test accepts (no bound on `u + v`); every earlier one is rejected, and with none accepted every one is rejected |
| Collision.RayCollides | New/Shared/Components/MeshCollision.cs:25-65 | reports the distance of the first triangle the source's test accepts, which exceeds 0.00001, or `float.MaxValue` and false when none is accepted |
| Collision.HeadDecides | New/Shared/Components/MeshCollision.cs:57-60 | the scan returns at the first triangle the source's test accepts, even when a later triangle is nearer |
| Components.Ord | New/Shared/Components/Component.cs:3-16 | the number of a kind is below `Size` = 10 and is its position in the declaration |
| Components.FromOrd | New/Shared/Components/Component.cs:3-16 | a number names a kind exactly when it lies in [0, 10) |
| Components.OrdBijection | New/Shared/Components/Component.cs:3-16 | the ten kinds are distinct and numbering them is a bijection onto [0, 10) |
| Components.KindOf | New/Shared/Components/Component.cs:23-26 | each concrete component class passes its own kind to the base constructor |
| Components.HashByClass | New/Shared/Components/Component.cs:40-43 | the hash depends only on the runtime class: two components of one class hash alike, whatever their fields or owner |
| Components.NewLife | New/Shared/Components/Life.cs:7-20 | `new Life(h)` works for `h ≥ 0`; a negative health makes the setter touch the still-null owner and throw |
| Entities.Fresh | New/Shared/Entity.cs:37-42 | a new entity has the drawn id, its rented pool index and view, no flags set, and all ten transform fields zero |
| Entities.SetPos | New/Shared/Entity.cs:127-130 | `SetVec3` makes the position the given vector and changes no other field |
| Entities.IncPos | New/Shared/Entity.cs:132-137 | `IncVec3` adds the vector to the position and changes no other field |
| Entities.SetPrev | New/Shared/Entity.cs:144-151 | the five previous fields take the current values and nothing else changes |
| Entities.SetPrevSettles | New/Shared/Entity.cs:26-33 | after `SetPrev` every interpolated value is the current one for any tick fraction; in general the interpolation runs from the previous value at 0 to the current one at 1 |
| Entities.ChunkPos | New/Shared/Entity.cs:153 | the chunk of an entity is its truncated X and Z, each shifted right by 4 |
| Entities.EntityEq | New/Shared/Entity.cs:102-115 | `==` is false when the left side is null, and otherwise compares ids |
| Entities.EntityNe | New/Shared/Entity.cs:107-110 | `!=` is the negation of `==` |
| Entities.EntityEqProperties | New/Shared/Entity.cs:102-115 | `==` is symmetric, transitive and reflexive on entities, but `null == null` is false and `null != null` is true |
| Entities.Has | New/Shared/Entity.cs:97-100 | `Has(t)` holds exactly when slot `t` of the entity's view is occupied |
| Entities.AddComp | New/Shared/Entity.cs:74-78 | `Add` sets the component's owner and writes it into the slot of its kind; no other component changes |
| Entities.AddThenGet | New/Shared/Entity.cs:74-83 | after `Add`, `Get` of the component's kind returns it and `Has` holds, and every other slot reads as before |
| Entities.OccupiedExact | New/Shared/Entity.cs:49-72 | the per-component loops visit each occupied slot exactly once, in increasing kind order |
| Entities.OccupiedComplete | New/Shared/Entity.cs:49-72 | every occupied slot is visited |
| Entities.GetMeshFrom | New/Shared/Entity.cs:85-95 | `GetMesh` returns the mesh of the first mesh-supplying component in slot order, or null when none supplies one |
| Entities.AddKeepsTyped | New/Shared/Entity.cs:74-78 | `Add` keeps every occupied slot holding a component of the slot's kind |
| Entities.CollisionMeshWins | New/Shared/Entity.cs:85-95 | with typed slots, an entity with a mesh collision gets its mesh from that component |
| Entities.GetMeshNone | New/Shared/Entity.cs:85-95 | with typed slots, an entity with neither collision nor model has no mesh |
| Rand.NextSingle | New/Shared/Extensions.cs:80-83 | a single draw lies in [0, 1) |
| Rand.NextFloat | New/Shared/Extensions.cs:85-88 | `NextFloat(min, max)` lies in [min, max) for min < max and is `min` when the bounds are equal |
| Rand.Next | New/Shared/Extensions.cs:90-93 | `Next(min, max)` throws when min > max, yields `min` for equal bounds, and otherwise lies in [min, max) |
| Rand.NextUInt | New/Shared/Extensions.cs:105-108 | for bounds within the positive int range, `NextUInt(min, max)` lies in [min, max) with an exclusive upper bound, and throws when min > max |
| Rand.NextLong | New/Shared/Extensions.cs:110-113 | an id lies in [0, `long.MaxValue`), the range of `NextInt64()`, and is the draw itself whenever the draw is in that range |
| Extensions.TerminatedIsJoin | New/Shared/Extensions.cs:121-123 | appending ", " after every item and then dropping the last two characters gives the items joined by ", " |
| Extensions.ContentToString | New/Shared/Extensions.cs:118-126 | a sequence prints as "[" + its items joined by ", " + "]", and as "[]" when empty |
| Extensions.MapContentToStringAsWritten | New/Shared/Extensions.cs:128-148 | as written, an empty map prints as "Map<K, V>()"; a non-empty map loses three characters after its entries |
| Extensions.MapContentToString | New/Shared/Extensions.cs:128-148 | the intended formatting removes only the trailing ", " after the entries |
| Extensions.MapContentToStringRestoresParen | New/Shared/Extensions.cs:144-145 | the intended output of a non-empty map is the as-written output with the lost ')' put back |
| Extensions.MapContentToStringAsWrittenUnbalanced | New/Shared/Extensions.cs:128-148 | as written, a non-empty map with parenthesis-free text prints one more '(' than ')' |
| Extensions.MapContentToStringBalanced | New/Shared/Extensions.cs:128-148 | the intended output balances its parentheses for every map with parenthesis-free text |
| Extensions.MapContentToStringAsWrittenExample | New/Shared/Extensions.cs:128-148 | the int map {1: 2} prints as "Map<System.Int32, System.Int32>((1, 2)" |
| Extensions.DegRad | New/Shared/Extensions.cs:177-188 | over exact reals, `Rad` and `Deg` are inverse to each other |
| Extensions.ChunkCoord | New/Shared/Extensions.cs:210-218 | the chunk coordinate `c` of `x` is the one with the truncated `x` in [16c, 16c + 16) |
| Extensions.ChunkCoordUnique | New/Shared/Extensions.cs:210-218 | that chunk coordinate is unique |
| Extensions.ChunkCoordNearZero | New/Shared/Extensions.cs:210-218 | truncation comes first, so -0.5 lands in chunk 0, -1.0 in chunk -1 and -16.5 in chunk -1 |
| Extensions.ChunkPos2 | New/Shared/Extensions.cs:210-213 | a 2-vector maps to the chunk of its X and Y |
| Extensions.ChunkPos3 | New/Shared/Extensions.cs:215-218 | a 3-vector maps to the chunk of its X and Z, ignoring the height |
| FontFormats.RegistryLast | New/Shared/FontFormat.cs:28-33 | after the constructors have run, the registry holds exactly the codes constructed, each mapped to the last format built with it |
| FontFormats.CodesDistinct | New/Shared/FontFormat.cs:7-23 | the seventeen codes are pairwise distinct |
| FontFormats.ValuesByCode | New/Shared/FontFormat.cs:5-33 | `VALUES` maps each of 0-9, a-f and r to the format built with that code, and holds no other key |
| FontFormats.BlackResetShareColor | New/Shared/FontFormat.cs:7-23 | BLACK and RESET share colour 0, so the colour alone does not identify a format |
| FontFormats.Decimal | New/Shared/FontFormat.cs:35-38 | a number prints as decimal digits with no leading zero |
| FontFormats.DecimalRoundTrip | New/Shared/FontFormat.cs:35-38 | reading the printed digits back gives the number |
| FontFormats.ToString | New/Shared/FontFormat.cs:35-38 | a format prints as the section sign followed by decimal digits |
| FontFormats.ToStringByValue | New/Shared/FontFormat.cs:24-38 | the code is printed as its numeric value, so BLACK prints as the section sign followed by "48" and RESET as the section sign followed by "114"; distinct codes print distinctly |
| FontFormats.ToStringMisreads | New/Shared/FontFormat.cs:5-38 | read back through `VALUES` by its second character, the string BLACK prints names DARKRED |
| FontFormats.ToStringIntendedReadsBack | New/Shared/FontFormat.cs:5-38 | as intended, each of the seventeen formats prints to a string whose code character `VALUES` maps back to that format, and no two formats print alike |
| GameState.WorldAdd | New/Shared/Worlds/World.cs:22-30 | with a spare slot the entity is appended to `Objs` without reallocation and `ObjsToAdd` is untouched; otherwise `Objs` is untouched and the entity is queued; nothing else changes |
| GameState.Relocate | New/Shared/Components/ComponentPool.cs:25-28 | succeeds exactly when no listed reference is null and each names a live region; then every listed entity, and no other, takes the view of its index in the current array |
| GameState.NewEntity | New/Shared/Entity.cs:11-42 | the id is drawn first and lies in [0, `long.MaxValue`), the new entity is appended with the view of its rented index, the state stays valid, and only when the rent grew the array are the entities listed in `Objs` relocated; it fails exactly when relocation meets a null or stale entry |
| GameState.NewEntityFrame | New/Shared/Entity.cs:37-42 | `new Entity()` adds one entity, uses one draw and changes existing entities only in their views |
| GameState.NewEntityNewborn | New/Shared/Components/ComponentPool.cs:12-23 | the new entity's region is current and all of its slots are empty, whether the index came from a hole or from growth |
| GameState.Attach | New/Shared/Entity.cs:74-78 | the component joins the heap owned by the entity and the pool changes only in the slot of the component's kind |
| GameState.AttachFresh | New/Shared/Entity.cs:74-78 | on a fresh entity the state stays valid and exactly the slot of the kind reads the new component |
| GameState.NewSnow | New/Shared/Components/Snow.cs:13-20 | the drift direction lies in the ranges of the three draws, the spin sign is -1 or 1 and the phase is in [0, 360) |
| GameState.NewVelocity | New/Shared/Components/ItemDrop.cs:15 | the drop's starting velocity lies in [-0.5, 0.5) x [0.5, 1) x [-0.5, 0.5) |
| GameState.SpawnSnow | New/Shared/Components/Tree.cs:15-24 | the flake is flagged `Updates`, sits at the tree's X and Z and 16 to 28 above it, is settled, holds only a `Snow` component, and is appended to `ObjsToAdd`; six draws are used |
| GameState.TreeUpdate | New/Shared/Components/Tree.cs:9-25 | above 800 updated entities the state is unchanged; otherwise it fails exactly when `new Entity()` does, and every outcome is a valid update step |
| GameState.TreeUpdateIsSpawn | New/Shared/Components/Tree.cs:13-24 | a spawning tree is `new Entity()` followed by the snow spawn |
| GameState.TreeUpdateSpawns | New/Shared/Components/Tree.cs:13-24 | exactly one entity and one component are added, seven draws are used, and the new entity holds only a `Snow` built from the draws after the id |
| GameState.ItemDropUpdate | New/Shared/Components/ItemDrop.cs:18-29 | the previous position becomes the current one; a drop resting on the terrain stays put, otherwise its vertical speed drops by 0.1 and it moves by its velocity; no other entity changes |
| GameState.OwnUpdate | New/Shared/Components/Snow.cs:54-73 | the unmodelled motion hooks keep the owner's identity, view and `Updates`, never clear `Removed`, and keep the component's kind |
| GameState.UpdateHook | New/Shared/Components/Component.cs:28-29 | each class's override is dispatched (tree, drop, camera, snow) and the base hook changes nothing |
| GameState.UpdateFrom | New/Shared/Entity.cs:49-53 | running the hooks from a slot on through the view held at entry keeps the state valid and is an update step |
| GameState.UpdateEntity | New/Shared/Entity.cs:49-53 | an entity's update keeps the state valid, only appends entities and queue entries, and never clears `Removed` |
| GameState.InertUpdate | New/Shared/Entity.cs:49-53 | an entity none of whose components overrides `Update` is left unchanged |
| GameState.SpawnDrop | New/Shared/Components/Drop.cs:23-34 | the new entity sits 4 above the dying one, settled, with a new stack, an `ItemDrop`, a `Model` and a `MeshCollision` in the slots of their kinds, and goes into `Objs` or `ObjsToAdd` by room |
| GameState.DropDie | New/Shared/Components/Drop.cs:19-35 | a successful death of a drop is a valid die step: existing entities keep everything but their view, and what joins `Objs` is new and not removed |
| GameState.DropDieOk | New/Shared/Components/Drop.cs:19-35 | the death succeeds exactly when the entity can be created, the size draw is in range and the item has a model |
| GameState.DropDieSpawns | New/Shared/Components/Drop.cs:23-34 | exactly one entity is spawned, flagged `Updates`, holding a stack whose size lies in [Min, Max), with five draws in all |
| GameState.DieHook | New/Shared/Components/Component.cs:37-38 | only a `Drop` component does anything when its owner dies |
| GameState.DieFrom | New/Shared/Entity.cs:67-72 | running the die hooks from a slot on keeps the state valid and is a die step |
| GameState.DieEntity | New/Shared/Entity.cs:67-72 | after the hooks the entity's index is the newest hole of the pool; existing entities are only relocated and only non-removed new entities join `Objs` |
| GameState.LifeHitsRemove | New/Shared/Components/Life.cs:7-29 | after k hits the health is down by k and the owner is removed exactly when the health went below zero, so `Life(n)` dies on hit n + 1 |
| GameState.LifeInteract | New/Shared/Components/Life.cs:22-29 | only a `Hit` changes anything: one less health and `Removed` set once it is negative |
| GameState.ItemDropInteract | New/Shared/Components/ItemDrop.cs:31-38 | only a `Pickup` changes anything; it succeeds exactly when the source has an inventory and `Inventory.Add` of the drop's stack succeeds (a null stack only into an empty inventory), adds the stack to it and marks the drop removed |
| GameState.InteractHook | New/Shared/Components/Component.cs:34-35 | only `Life` and `ItemDrop` respond, and a hook changes no entity but the target and of it only `Removed` |
| GameState.InteractFrom | New/Shared/Entity.cs:61-65 | the hooks from a slot on change only the target's `Removed`, never clearing it |
| GameState.InteractEntity | New/Shared/Entity.cs:61-65 | an interaction changes no other entity, and of the target only `Removed`, which it never clears |
| Items.EmptyRegistry | New/Shared/Items/Item.cs:11-13 | the registry starts with no items, id counter 0 and a list of the default capacity |
| Items.Register | New/Shared/Items/Item.cs:18-25 | an item takes the next id, is appended to the list and (re)binds its name, and the registry invariant (item i has id i) is kept |
| Items.Statics | New/Shared/Items/Item.cs:15-16 | the two static items leave a valid registry |
| Items.StaticIds | New/Shared/Items/Item.cs:15-27 | `AIR` has id 0, `WOOD` id 1, and `Count` is 2 |
| Items.GetById | New/Shared/Items/Item.cs:34-37 | an id below `Count` yields the item with that id, an id between `Count` and the capacity yields null, and any other id throws |
| Items.GetByName | New/Shared/Items/Item.cs:29-32 | a registered name yields its item and any other name throws |
| Items.GetByNameLastWins | New/Shared/Items/Item.cs:18-37 | registering a name twice makes the later item the one found by name, while both stay reachable by id |
| Items.ItemEq | New/Shared/Items/Item.cs:39-42 | two nulls are equal, null never equals an item, and two items are equal exactly when their ids are |
| Items.ItemEqEquivalence | New/Shared/Items/Item.cs:39-59 | `Item ==` is reflexive, symmetric and transitive, and equal items have equal hash codes |
| Items.DefaultStack | New/Shared/Items/ItemStack.cs:14-15 | the parameterless stack is zero copies of `AIR` |
| Items.StackEq | New/Shared/Items/ItemStack.cs:17-20 | two nulls are equal, null never equals a stack, and two stacks are equal exactly when their items and sizes are |
| Items.StackNe | New/Shared/Items/ItemStack.cs:22-25 | `!=` is the negation of `==` |
| Items.StackEquals | New/Shared/Items/ItemStack.cs:27-30 | `Equals` agrees with `==` on a stack argument and is false on null |
| Items.StackHashConsistent | New/Shared/Items/ItemStack.cs:17-35 | equal stacks have equal hash codes whatever the combiner |
| Items.FindStack | New/Shared/Components/Inventory.cs:19 | the result is the first stored stack whose item equals the added stack's, with every earlier one a live miss; none is found only when every stored stack is a live miss; it throws exactly when a null stored entry, or a null added stack, is reached before any match, and an empty list never throws |
| Items.InventoryAdd | New/Shared/Components/Inventory.cs:17-26 | a new item's stack is appended by reference; otherwise the first matching stack grows by the added size modulo 2^32 and the list is unchanged; it throws exactly when the search does, so a null stack is appended to an empty inventory and throws on any other, and live entries never throw |
| Items.FindStackOk | New/Shared/Components/Inventory.cs:19 | with all stored stacks and the added stack live the search succeeds, and with a null added stack it succeeds only on an empty list |
| Items.InventoryNullPaths | New/Shared/Components/Inventory.cs:17-26 | a null stack added to an empty inventory is appended; a null stored entry before the match makes the search and the add throw |
| Items.InventoryAddKeepsDistinct | New/Shared/Components/Inventory.cs:17-26 | adding keeps the stored items pairwise distinct and changes no stack of another item |
| Items.InventoryMergeExample | New/Shared/Components/Inventory.cs:17-26 | a first stack of an item is appended and a second stack of the same item merges into it, 3 + 4 = 7 |
| Pool.NewPool | New/Shared/Components/ComponentPool.cs:5-7 | the pool starts with one array of 2^19 null slots, no entity and no hole |
| Pool.TheoreticalCount | New/Shared/Components/ComponentPool.cs:8 | the number of whole regions the current array holds, never below `Count` |
| Pool.ClearRegion | New/Shared/Components/ComponentPool.cs:17 | exactly the `Size` slots of the region become null and every other slot is kept |
| Pool.Rent | New/Shared/Components/ComponentPool.cs:12-32 | a queued index is reused oldest first, its region in the current array nulled, and the fill throws when the region lies outside the array; otherwise the next index is handed out, and the array is replaced (keeping the rented regions, the rest null) exactly when it has no room for one more region |
| Pool.Ret | New/Shared/Components/ComponentPool.cs:34-37 | returning only appends the index to the queue |
| Pool.Get | New/Shared/Components/ComponentPool.cs:39-42 | the view of the region at `Size * index` in the current array, and an exception exactly when the region does not fit |
| Pool.ReadWrite | New/Shared/Components/ComponentPool.cs:39-42 | a slot written through a view reads back through it and the other slots of the view are unchanged |
| Pool.RegionsDisjoint | New/Shared/Components/ComponentPool.cs:41 | the regions of distinct indices do not overlap |
| Pool.RentClean | New/Shared/Components/ComponentPool.cs:12-32 | from a clean pool, renting always succeeds, keeps it clean, and hands out an index whose region is entirely null |
| Pool.WriteKeepsClean | New/Shared/Components/ComponentPool.cs:39-42 | writing through a stale view or into a rented region keeps the slots past the rented regions null |
| Pool.RetKeepsClean | New/Shared/Components/ComponentPool.cs:34-37 | returning a rented index keeps the pool clean |
| Pool.RentFresh | New/Shared/Components/ComponentPool.cs:12-32 | while only rented indices are returned, each once, a rent never hands out an index that is still rented |
| Pool.RetKeeps | New/Shared/Components/ComponentPool.cs:34-37 | returning a rented index keeps the rented/queued bookkeeping |
| Pool.DoubleRetSharesIndex | New/Shared/Components/ComponentPool.cs:34-37 | returning one index twice makes the next two rents hand out that same index |
| Maths.Trunc | New/Shared/Extensions.cs:210-218 | the float-to-int cast rounds toward zero: below the value for a non-negative one, above it for a negative one, and 0 exactly on (-1, 1) |
| Maths.TurnRem | New/Shared/Maths.cs:19 | the float remainder by 360 lies strictly inside (-360, 360), has the sign of the dividend and differs from it by whole turns |
| Maths.WrapDegrees | New/Shared/Maths.cs:17-26 | the wrapped angle lies in [-180, 180) and differs from the input by a whole number of turns |
| Maths.LerpProperties | New/Shared/Maths.cs:28-31 | the interpolation meets its endpoints at 0 and 1, is constant between equal endpoints and stays between them for a delta in [0, 1] |
| Maths.Clamp | New/Shared/Maths.cs:33-36 | on a non-empty range the result lies in it and equals an in-range value; below the range it is the start, above it the end, and an empty range yields the end |
| Maths.CrossOrthogonal | New/Shared/Maths.cs:38-52 | the cross product is orthogonal to both arguments |
| Meshes.NewMesh | New/Engine/Mesh.cs:20-35 | a mesh of non-negative capacity starts empty, not building and clean, with room for `initialCap` vertices and `6 · initialCap` indices; a negative capacity throws |
| Meshes.NextsConsecutive | New/Engine/Mesh.cs:37-40 | successive `Next` calls return consecutive indices from the current `Vertex` |
| Meshes.Put | New/Engine/Mesh.cs:42-46 | the vertex is appended to the vertex buffer and nothing else changes; an empty backing array throws |
| Meshes.Emit | New/Engine/Mesh.cs:37-46 | emitting a vertex appends it and returns the index it will be drawn by |
| Meshes.Single | New/Engine/Mesh.cs:48-52 | one index is appended and `_index` advances by one |
| Meshes.Line | New/Engine/Mesh.cs:54-59 | the two indices are appended in order and `_index` advances by two |
| Meshes.Tri | New/Engine/Mesh.cs:61-69 | the three indices and one triangle record are appended and both counters advance |
| Meshes.Quad | New/Engine/Mesh.cs:71-83 | the quad becomes the triangles `(p0, p1, p2)` and `(p2, p3, p0)`: six indices and two records, without reallocating when six slots are free |
| Meshes.BuildersKeepConsistent | New/Engine/Mesh.cs:37-83 | every builder call keeps `_index` and `_tris` within the buffers, and equal to them on a dynamic mesh |
| Meshes.Begin | New/Engine/Mesh.cs:85-99 | beginning twice throws; otherwise a dynamic mesh empties its buffers and records by resetting their counts only, so the old vertices and records stay in the arrays, while a static one keeps them; the vertex and index counters restart at 0 |
| Meshes.End | New/Engine/Mesh.cs:101-113 | ending throws exactly when neither building nor dirty, and otherwise clears both flags and nothing else |
| Meshes.Render | New/Engine/Mesh.cs:115-151 | a pending build is ended first; nothing is drawn when no index was written |
| Meshes.RenderIdempotent | New/Engine/Mesh.cs:115-151 | rendering again leaves the mesh as it was and draws the same triangles |
| Meshes.ClosestVertex | New/Engine/Mesh.cs:191-210 | the result is a vertex of least squared distance over the whole array, the last such, with its position; an empty array throws |
| Meshes.SetPos | New/Engine/Mesh.cs:212-221 | exactly the one vertex moves and the mesh becomes dirty; an index outside the array throws |
| Meshes.SetPosThenEnd | New/Engine/Mesh.cs:101-113 | after `SetPos` the mesh can be ended even when not building, which clears the dirty flag |
| MeshCollisions.Resolve | New/Shared/Components/MeshCollision.cs:31 | a record resolves to the three vertex positions it names, and throws exactly when one index lies outside the vertex array |
| MeshCollisions.ScanIsRayCollides | New/Shared/Components/MeshCollision.cs:25-65 | when every record resolves, the mesh scan is the triangle-list ray test as written, `u + v > 1` hits included: the first accepted triangle's distance, or `float.MaxValue` on a miss |
| MeshCollisions.DefaultRecordNeverHits | New/Shared/Components/MeshCollision.cs:31-40 | an unused `(0, 0, 0)` record is a degenerate triangle that the source's test never accepts |
| MeshCollisions.ScanMissHead | New/Shared/Components/MeshCollision.cs:29-61 | a record whose triangle is missed passes the scan on to the next one |
| MeshCollisions.DefaultRecordsMiss | New/Shared/Components/MeshCollision.cs:29-64 | a run of unused records reports no hit at `float.MaxValue` |
| MeshCollisions.SpareRecordsNeverHit | New/Shared/Components/MeshCollision.cs:27-64 | scanning the unused slots past `Tris.Count` never changes the answer |
| MeshCollisions.MeshRayCollidesLive | New/Shared/Components/MeshCollision.cs:25-65 | a mesh whose triangle array holds resolvable records and then unused ones answers exactly as the as-written ray test over the resolved records |
| MeshCollisions.EmptyVerticesThrow | New/Shared/Components/MeshCollision.cs:28-31 | with no vertex at all the first record throws |
| Raycasts.EntityCandidate | New/Shared/Worlds/World.cs:121-130 | a null entry throws, because the null guard compares through `Entity`'s `==` and never skips; an entity out of reach in the plane or one without `Collision` offers nothing; an offer, the distance the source's mesh test reports, is always within [0, `REACH`] and comes from an entity in reach that has `Collision` |
| Raycasts.TileCandidate | New/Shared/Worlds/World.cs:143-147 | a chunk that is not cached offers nothing, and an offer, the distance the source's mesh test reports, is within [0, `REACH`] and comes from a cached chunk |
| Raycasts.TileKeys | New/Shared/Worlds/World.cs:139-143 | the nine keys around the eye's chunk, row by row, the key at offset (i, j) in position 3(i+1)+(j+1) |
| Raycasts.TileKeyAt | New/Shared/Worlds/World.cs:140-143 | the loops at offset (i, j) test the chunk key `(i + X, j + Y)` |
| Raycasts.Collect | New/Shared/Worlds/World.cs:119-153 | the run of tests succeeds exactly when every test does, and then holds each test's offer in order |
| Raycasts.CollectErr | New/Shared/Worlds/World.cs:119-153 | the first test that throws makes the whole ray cast throw with its message |
| Raycasts.PickFirstMin | New/Shared/Worlds/World.cs:130-135 | the entity loop's strict comparison chooses the first of the smallest offers below the starting distance, and nothing when no offer is below it |
| Raycasts.PickLastMin | New/Shared/Worlds/World.cs:147-152 | the tile loop's non-strict comparison chooses the last of the smallest offers not above the entity phase's distance, and nothing when every offer is above it |
| Raycasts.RaycastOf | New/Shared/Worlds/World.cs:112-162 | the ray cast succeeds exactly when every test does, so never on a list with a null entry, and then reports the nearest offer: the first such entity or else the last such chunk, a tile winning a tie, with the hit point on the ray at that distance and `Distance` left at 0; with no offer the empty result |
| Raycasts.Finish | New/Shared/Worlds/World.cs:155-161 | the tile phase's choice wins if it made one, else the entity phase's, else the empty result; what it reports is the nearest offer, built by the constructor that leaves `Distance` at 0 |
| Raycasts.EntityPhase | New/Shared/Worlds/World.cs:114-136 | the entity loop either throws exactly as the first failing test does or leaves the state the first-minimum choice describes |
| Raycasts.TileAt | New/Shared/Worlds/World.cs:143-152 | one tile step either throws as the whole run does or extends the offers by one and keeps the last-minimum state |
| Raycasts.TilePhase | New/Shared/Worlds/World.cs:138-153 | the tile loops either throw exactly as the first failing test does or leave the state the last-minimum choice describes, starting from the entity phase's |
| Raycasts.Raycast | New/Shared/Worlds/World.cs:112-162 | the loops compute exactly the result the nearest-offer definition gives, `Distance` 0 included, throwing when it throws, as on a null entry |
| Raycasts.RaycastOfPhases | New/Shared/Worlds/World.cs:112-162 | once both runs of tests succeed the result is decided by their offers alone |
| Raycasts.ReportFinish | New/Shared/Worlds/World.cs:155-161 | the state the two loops leave behind reports what the nearest-offer choice picks, through the same constructor, so `Distance` is 0 in both |
| Raycasts.RaycastTargets | New/Shared/Worlds/World.cs:112-162 | a tile hit names a cached chunk among the 3 x 3 around the eye's, and an entity hit names a listed entity in reach in the plane that has `Collision` |
| Worlds.NewWorld | New/Shared/Worlds/World.cs:11-20 | a new world has two empty lists of capacities 16384 and 1024, no cached chunk, and a previous chunk position of (1000, 1000) |
| Worlds.WorldAddKeeps | New/Shared/Worlds/World.cs:22-30 | adding an entity of the heap keeps every listed reference inside the heap |
| Worlds.TicksStep | New/Shared/Worlds/World.cs:36-45 | one more entity update after a run of updates is still a run of updates and keeps the lists' references in the heap |
| Worlds.Activate | New/Shared/Worlds/World.cs:34-45 | the pass succeeds only when no listed entry is null; only listed entities that `Updates` run, `k` counts them, and when no entity is listed twice exactly those within 18432 squared units of the player in the plane run, the player measured as it stood before the pass for the entries up to its own and as its own `Update` left it for the entries after |
| Worlds.ActivateAt | New/Shared/Worlds/World.cs:38-44 | a null entry throws, as the null guard never skips; otherwise the entity there runs only when it is active, is counted, and the pass keeps its invariant |
| Worlds.ActiveUnchanged | New/Shared/Worlds/World.cs:39-41 | whether an entity is active depends only on fields an earlier update of another entity cannot change |
| Worlds.RemoveDead | New/Shared/Worlds/World.cs:54 | every `Removed` entity of the list dies in list order and leaves it, the others keep their order, and what the die hooks appended follows them; a null in the list throws |
| Worlds.RemoveAtScan | New/Shared/Vec.cs:195-208 | one scan step either keeps the entry and moves on or removes a dead entry after running its `Die`, and keeps the removal invariant |
| Worlds.DeadNow | New/Shared/Worlds/World.cs:8-9 | an entity's `Removed` flag read during the pass is the one it had before it, and only entities of the original list can be dead |
| Worlds.RemoveDeadClears | New/Shared/Worlds/World.cs:54 | after the pass no listed entity is null or `Removed`, and every listed entity that was not removed is still listed |
| Worlds.StreamWindow | New/Shared/Worlds/World.cs:60-66 | every key of the 25 x 25 window around the player's chunk ends up cached; cached chunks are never replaced and new ones are built for their keys |
| Worlds.Stream | New/Shared/Worlds/World.cs:56-68 | when the player's chunk has not changed nothing happens; otherwise the window around it is streamed and the new position remembered |
| Worlds.Merge | New/Shared/Worlds/World.cs:47-51 | the queued entities follow the listed ones in `Objs` and the queue is emptied |
| Worlds.Tick | New/Shared/Worlds/World.cs:32-54 | the activation pass, the merge and the removal pass in that order: a null listed entry makes it throw, `InView` is the number of active entities, with the player measured as in the activation pass, the pending entities follow the listed ones, and afterwards no listed entity is null or `Removed` |
| Worlds.Update | New/Shared/Worlds/World.cs:32-69 | a tick keeps the world valid and, when the player changed chunk, leaves every key of the window around it cached and remembers the new position |
| Worlds.PlayerAfterTick | New/Shared/Worlds/World.cs:47-56 | the player's chunk read for streaming is the one after the entity updates, untouched by the merge and removal |
| Worlds.RenderChunks | New/Shared/Worlds/World.cs:73-84 | the chunks drawn, in loop order, are exactly those within 9 chunk steps that are within 3 steps or within 75 degrees of the view; an uncached one throws |
| Worlds.RenderRow | New/Shared/Worlds/World.cs:76-84 | one row of the chunk loops draws, in column order, exactly the row's shown offsets, and throws exactly when one of their keys is not cached |
| Worlds.RowDrawsMembers | New/Shared/Worlds/World.cs:76-84 | a row draws exactly the shown keys from the given column on |
| Worlds.DrawsMembers | New/Shared/Worlds/World.cs:75-84 | the chunk loops draw exactly the shown keys of the window |
| Worlds.NearChunksShown | New/Shared/Worlds/World.cs:78-82 | a chunk within 3 steps of the player's is always drawn, whatever the view |
| Worlds.StreamedDrawsCached | New/Shared/Worlds/World.cs:60-84 | every chunk the render loop draws lies inside the streamed window, so once streamed it never throws |
| Worlds.RenderEntities | New/Shared/Worlds/World.cs:86-96 | the loop throws exactly when a listed entry is null, as the null guard never skips; otherwise the entities drawn are the listed ones within the activation distance and either within 864 squared units or 65 degrees of the view, in list order |
| Worlds.EntityShownBounds | New/Shared/Worlds/World.cs:90-93 | a drawn entity is within the activation distance, and one within 864 squared units is always drawn |
| Worlds.Render | New/Shared/Worlds/World.cs:71-97 | rendering draws the shown chunks and then the shown entities, throwing exactly when a shown chunk is not cached or a listed entry is null |
| RollingAverages.NewAvg | New/Shared/RollingAverage.cs:9-12 | a new average holds no sample, a zero sum and the given window size |
| RollingAverages.Add | New/Shared/RollingAverage.cs:16-22 | the sample is enqueued and, once the queue holds more than `size`, the oldest is dropped; the running sum stays the sum of exactly the held samples |
| RollingAverages.AddAllValid | New/Shared/RollingAverage.cs:16-22 | any sequence of additions keeps the queue within the window and the sum equal to the held samples' sum |
| RollingAverages.AddAllKeepsLatest | New/Shared/RollingAverage.cs:16-22 | after any samples the queue holds exactly the latest `min(n, size)` of them, in order |
| RollingAverages.Average | New/Shared/RollingAverage.cs:14 | with samples held the average times their number is their sum; with none it is 0/0, not a number |
| Tweens.FModRange | New/Shared/Tweens/Tween.cs:21 | the float remainder of a non-negative time by a positive duration lies in [0, duration) and repeats with that period |
| Tweens.NewTween | New/Shared/Tweens/Tween.cs:9-15 | a tween is activated at the current clock with the given duration and repetition |
| Tweens.TweenOutputAt | New/Shared/Tweens/Tween.cs:25-35 | the output is 0 before activation, 1 after the end of a tween that does not repeat, and otherwise within [0, 1]; it is not a number only for a repeating tween of zero duration |
| Tweens.TweenOutput | New/Shared/Tweens/Tween.cs:17-23 | the output at the current clock is within [0, 1] whenever it is a number |
| Tweens.TweenOutputAgrees | New/Shared/Tweens/Tween.cs:17-40 | while a tween runs `Output` and `OutputAt` agree, and once done a tween of non-negative duration that does not repeat is at 1 |
| Tweens.TweenRepeats | New/Shared/Tweens/Tween.cs:25-35 | a repeating tween of positive duration gives the same output one duration later |
| Tweens.NewFromTo | New/Shared/Tweens/FromToTween.cs:11-18 | the tween is activated at the current clock with its endpoints and duration |
| Tweens.FromToOutputAt | New/Shared/Tweens/FromToTween.cs:29-36 | the value is `From` before activation, `To` after the end, and the interpolation at the animation's value in between |
| Tweens.FromToSettles | New/Shared/Tweens/FromToTween.cs:20-41 | `Output` is `OutputAt` the current clock, a done tween of non-negative duration rests at `To`, and it is done exactly when the clock has passed the end |
| Tweens.NewStatic | New/Shared/Tweens/StaticTween.cs:7-11 | the tween keeps its output and duration and is activated at the current clock by the base field initialiser |
| Tweens.StaticConstant | New/Shared/Tweens/StaticTween.cs:13-26 | the output is the constructed value at every time; as written the tween is done once `Fall.Now` exceeds its activation time, a reading of `Environment.TickCount`, by more than its duration |
| Tweens.StaticDoneLags | New/Shared/Tweens/StaticTween.cs:23-26 | as written, `Done` holds exactly when the intended test holds `start` milliseconds earlier on the tick clock, `start` being the tick count at which the game started; so it is never early, only late |
| Tweens.StaticDoneAsWrittenLate | New/Shared/Tweens/StaticTween.cs:23-26 | a game started one hour after system start: a 500 ms static tween activated 5 s into the game is due 5 s later, yet as written it is not done |
| Tweens.StaticDoneAsTweens | New/Shared/Tweens/Tween.cs:37-40 | the intended static `Done` is the `Done` of a tween or a from-to tween with the same activation time and duration, and holds exactly once the tick clock has passed the end |
| ShaderSettings.SplitJoin | New/Engine/ShaderSetting.cs:142 | joining the pieces of a split with the separator gives the text back |
| ShaderSettings.JoinSplit | New/Engine/ShaderSetting.cs:121 | splitting a join gives the pieces back when no piece contains the separator's first character |
| ShaderSettings.GetTypeName | New/Engine/ShaderSetting.cs:52-63 | exactly the five supported types have a name, a single word; any other type throws |
| ShaderSettings.GetType | New/Engine/ShaderSetting.cs:119-132 | a declaration whose first word is not `uniform` throws, and a type read is a supported one named by the second word |
| ShaderSettings.TypeNames | New/Engine/ShaderSetting.cs:52-132 | reading a type and naming it are inverse: the type word is the name of the type read, and a declaration written with a type's name reads back as that type |
| ShaderSettings.FloatText | New/Engine/ShaderSetting.cs:67 | a number text ending in `.` gets a `0` appended and any other text is kept |
| ShaderSettings.FloatTextStable | New/Engine/ShaderSetting.cs:67 | fixing the text twice is fixing it once, and it is kept exactly when it does not end in `.` |
| ShaderSettings.ParseFloat | New/Engine/ShaderSetting.cs:65-69 | the result is the number the fixed text denotes, and a text that is not a number throws |
| ShaderSettings.ParseAll | New/Engine/ShaderSetting.cs:71-85 | the pieces parse in order to one number each, and the run fails exactly when one piece does |
| ShaderSettings.ParseVec | New/Engine/ShaderSetting.cs:71-117 | the head and the closing character are dropped; one number is broadcast to all components, exactly n numbers are taken in order, and any other count throws |
| ShaderSettings.ParseVecWritten | New/Engine/ShaderSetting.cs:71-117 | a vector written as its head, numbers joined with `", "` and a closing character reads back as those numbers |
| ShaderSettings.ConfigText | New/Engine/ShaderSetting.cs:24-27 | the comment text is a slice of the configuration after its first two characters, and a configuration shorter than two throws |
| ShaderSettings.ConfigRange | New/Engine/ShaderSetting.cs:28-30 | the minimum and maximum are the numbers on either side of the first `..` of the comment text |
| ShaderSettings.ValueText | New/Engine/ShaderSetting.cs:142 | the value text is the words from the fifth on, joined by spaces, less the last character; fewer than four words or none after the fourth throws |
| ShaderSettings.ParseValue | New/Engine/ShaderSetting.cs:136-183 | each subclass parses a value of its type's shape: a float, an int, or a vector of 2, 3 or 4 components |
| ShaderSettings.Read | New/Engine/ShaderSetting.cs:35-50 | a read setting is named by the third word, has the declared type, the configured range and the value parsed from the value text; fewer than three words throws |
| ShaderSettings.ReadWritten | New/Engine/ShaderSetting.cs:22-50 | a declaration `uniform <type> <name> = <value>;` of single words with a well-formed comment reads back as that type, name, range and value |
| HitResults.NewHitResultAsWritten | New/Shared/Worlds/HitResult.cs:20-27 | the constructor stores the hit point, type, entity and chunk, and the distance stays at its default 0 whatever `dist` is passed |
| HitResults.NewHitResult | New/Shared/Worlds/HitResult.cs:12-27 | every field, the distance included, holds the argument passed for it |
| HitResults.DistanceLost | New/Shared/Worlds/HitResult.cs:18-27 | the constructor as written agrees with the intended one on every field except the distance, and a hit at distance 3 reports a different distance |
| Ui.BoundsHalfOpen | New/Shared/Screens/Element.cs:21 | an element contains its top-left corner exactly when it is non-empty, never its right or bottom edge, and hit-testing is invariant under moving the element and the cursor together |
| Ui.FirstHandlerIsFirst | New/Shared/Screens/Element.cs:45-58 | dispatch finds a handler exactly when some child is reached and handles the event, and the one found is the earliest such child |
| Ui.MouseDown | New/Shared/Screens/Element.cs:45-73 | the press is handled exactly when some child under the cursor handles it; the children asked are those under the cursor, in order, up to and including the first handler |
| Ui.KeyDown | New/Shared/Screens/Element.cs:75-101 | every child is asked in order until the first that handles the key, none after it; the key is handled exactly when some child handles it |
| Ui.Render | New/Shared/Screens/Element.cs:23-29 | removed children are dropped, the rest keep their order, and each survivor is rendered once, in order |
| Ui.ButtonRect | New/Shared/Screens/Window.cs:71-100 | the close button is an 18 by 18 square 21 times its offset left of the window's right edge, 21 above the window body |
| Ui.SetPos | New/Shared/Screens/Window.cs:71-81 | only an element with stored properties can be moved; a close button or a screen throws `NotImplementedException` |
| Ui.SetSize | New/Shared/Screens/Screen.cs:39-49 | only an element with stored properties can be resized; a close button or a screen throws `NotImplementedException` |
| Ui.PlaceAllStacks | New/Shared/Screens/Element.cs:111-121 | on stored-property children the layout loop succeeds: each child keeps its size and lands at the column and at the start height plus the stacked heights, padding included, of the children before it |
| Ui.PlaceAllFails | New/Shared/Screens/Element.cs:113-118 | the layout loop fails exactly when some slot is not a stored-property element, at the first such slot, with a null reference for an empty slot and `NotImplementedException` for a button or screen |
| Ui.OnAddChildAsWritten | New/Shared/Screens/Element.cs:109-125 | the layout as written keeps the child count when it succeeds |
| Ui.OnAddChild | New/Shared/Screens/Element.cs:109-125 | the intended layout keeps the child count and leaves the spare slots untouched |
| Ui.LayoutStacks | New/Shared/Screens/Element.cs:109-125 | the intended layout succeeds exactly when the parent and every child store their properties; then children are stacked from (X + 3, Y + 3) and the parent takes the widest width and the stacked height |
| Ui.AddChildAsWritten | New/Shared/Screens/Element.cs:103-125 | as written, adding a child adds one to the count; it throws `NullReferenceException` whenever the append leaves a null spare slot, even when every element stores its properties, and it lays out as intended only when the append fills the backing array |
| Ui.AddChild | New/Shared/Screens/Element.cs:103-107 | as intended (the live children only), adding a child adds one to the count and succeeds exactly when the parent, the new child and every earlier child store their properties |
| Ui.LayoutAsWrittenVisitsSpare | New/Shared/Screens/Element.cs:111-115 | as written the loop reaches a null spare slot after the children and throws, where the intended layout succeeds |
| Ui.LayoutAgreesWhenFull | New/Shared/Screens/Element.cs:111-113 | with no spare slot the as-written and the intended layout agree |
| Ui.FirstChildAsWritten | New/Shared/Screens/Element.cs:103-125 | adding a first child to an element throws `NullReferenceException` as written, at the spare slots of the new child list |
| Ui.FirstChildLaidOut | New/Shared/Screens/Element.cs:103-125 | under the intended layout a first 10 by 10 child of an element at the origin lands at (3, 3) and the parent becomes 10 wide and 13 high |
| Ui.NewWindowThrows | New/Shared/Screens/Window.cs:17-24 | constructing a window adds its close button and laying that out assigns the button's position, so the constructor always throws `NotImplementedException` |
| Ui.WindowBounds | New/Shared/Screens/Window.cs:26-28 | the title bar and the body never overlap, and together they cover one rectangle from 24 above the body to its bottom |
| Ui.ButtonInTitleBar | New/Shared/Screens/Window.cs:71-81 | on a window wide enough for it the close button lies inside the title bar, so a click on it is inside the window's bounds |
| Ui.WindowMouseDown | New/Shared/Screens/Window.cs:49-59 | the press is handled exactly when a child handled it or it is in the title bar, and a drag starts only for a title-bar press no child handled; the window does not move |
| Ui.WindowMouseUp | New/Shared/Screens/Window.cs:61-67 | a release always stops dragging, reports unhandled and leaves the window in place |
| Ui.WindowFollow | New/Shared/Screens/Window.cs:37-43 | rendering moves a window only while it is dragged and never resizes it |
| Ui.DragFollowsCursor | New/Shared/Screens/Window.cs:37-59 | after a title-bar press the window moves by exactly the distance the cursor moved, so the cursor stays in the title bar |
| Ui.DragStops | New/Shared/Screens/Window.cs:37-67 | after a release, rendering leaves the window where it was |
| Ui.ButtonMouseDown | New/Shared/Screens/Window.cs:116-122 | the close button always reports the press handled, and it closes the window unless one of its own children handled the press |

## Left out

- GPU work: `Upload`, `Bind`, `Unbind`, the GL draw calls of `Mesh.Render`, `RenderInstanced`, `Ibo`/`Vbo` upload, `Element.DrawQuad`, `Font.Draw` and the component `Render` hooks. These are foreign OpenGL effects; the model only computes which chunks and entities are drawn and in what order.
- `Entity.Render` dispatch: it only forwards to rendering hooks, so it has no state to model.
- The terrain height (`Noise` over the biome noise), `atan2` (`CalcAngle`), `MathHelper.Lerp`, `float.Parse`, `int.Parse`, the tween easing curves, the clock, the cursor position and `ArrayPool.Rent`. These are foreign or floating-point library calls, so they are parameters. `ArrayPool.Rent` is assumed to grant at least the length asked for.
- Single-precision rounding. Floats are exact reals. The one float result that is not a number, a division by zero, is `None` (`RollingAverages.Average`, `Tweens.TweenOutput`).
- `Camera.Update` and `Snow.Update` motion. They are trigonometric float motion driven by input and time. `GameState.OwnUpdate` takes their effect as a parameter and keeps the owner's identity, view and component kind.
- The player is assumed to be an entity of the heap; `Fall.Player` being unset is not modelled.
- `Console.WriteLine` in `ParseVec2`/`ParseVec3`/`ParseVec4` is output only.
- `Element.Update` and `Element.MouseMove` only forward to the children, with no state of their own.
- `Ui.MouseDown` and `Ui.KeyDown` take a child's own answer as the parameter `handles`, so the side effects of the child's handler are not modelled.
- A `null` child in `Element.Render`, on which reading `Removed` would throw: `Ui.Render` is generic over the child type and has no null child.
- The close button's render callback and `Screen.OnClose` draw or do nothing.
- `Screen`'s getters read the game window's size, which is the parameter of `Ui.ScreenNode`.
- `FloatSlider`, `ShaderSettingElement` and `ShaderSettingScreen` are GLFW cursor queries and shader registry wiring.
- `Tweens.TweenOutput`: states only that the output lies in [0, 1] (or is not a number). `Output()` has no special case before activation or after the end, so its value there is the easing curve's, which the model leaves open; `Tweens.TweenOutputAgrees` relates it to `OutputAt` while the tween runs.
- Concurrency helpers (`for_each_async`, `for_async`), `Colors` and `DeterministicRandom` are concurrency, reflection and float colour maths.
- Superseded copies of the world, chunk, item and component files disagree with the current `Component.cs` enumeration; only the current versions are modelled.
- `Box.cs`'s slab test relies on IEEE infinities, which have no counterpart over reals.
- `Model3d` mesh loading: OBJ file I/O. The loaded meshes are the parameter `meshes` of `Raycasts`.
- `Vec.GrownCapacity`: assumes `Items.Length * loadFactor` fits in an `int`. From a length of 2^30 on, the cast `(int)(Items.Length * loadFactor)` in `Vec.cs` line 228 overflows, and its result depends on the .NET platform. There the growth target is not at least double the length; the model's arrays have no upper bound.
- `Vec.EnsureCapacity`: the same overflow from a length of 2^30 on, so "grows to the growth target" and "keeps the live elements" assume a length below 2^30.
- `Buffers.NewVbo`: the pooled array's slots are modelled as the default value. `ArrayPool.Rent` does not clear the arrays it hands out, so in the game these slots may hold stale vertices, which `Meshes.ClosestVertex` would scan.
- `Buffers.PutVbo`: the same for the slots past the copied prefix of a grown array, which the model fills with the default value.
- `GameState.WorldAdd`: `World.Add` calls `Objs.CanAddWithoutResize()`, which `Vec.cs` does not define. The model reads it as "the list has a spare slot" (`Count < Items.Length`), which its name describes.

## Findings

| source | as written | input that shows it | evidently intended | confidence | as-written member | corrected member |
|---|---|---|---|---|---|---|
| New/Shared/Extensions.cs:144-145 | the dictionary `ContentToString` removes the last three characters `"), "`, taking the closing parenthesis of the last pair with the separator | an `int`-to-`int` map holding the entry (1, 2) prints `Map<System.Int32, System.Int32>((1, 2)`, with one more `(` than `)` | remove only the trailing `", "`, so every pair keeps its `)` and the parentheses balance | medium, not executed | Extensions.MapContentToStringAsWritten | Extensions.MapContentToString |
| New/Shared/Components/MeshCollision.cs:44-53 | the barycentric test bounds `u` and `v` each to [0, 1] but never checks `u + v <= 1` | a ray from (0.8, 0.8, 1) straight down onto the triangle (0,0,0), (1,0,0), (0,1,0) is reported as a hit at distance 1, although it passes outside the triangle | the Möller–Trumbore test also rejects `u + v > 1` | high, not executed | Collision.HitAsWrittenOutsideTriangle | Collision.HitOutsideTriangle |
| New/Shared/Worlds/HitResult.cs:20-27 | the constructor never assigns `Distance` | a hit constructed with `dist` = 3 reports `Distance` 0 | store `dist` in `Distance` | high, not executed | HitResults.DistanceLost | HitResults.NewHitResult |
| New/Engine/Vbo.cs:54-58 | `Clear` sets the count to 0 before clearing that many elements, so it clears nothing | a vertex buffer holding one vertex `v` still holds `v` in slot 0 after `Clear` | clear the live prefix first, then reset the count | medium, not executed | Buffers.ClearVboAsWrittenKeepsStale | Buffers.ClearVbo |
| New/Shared/Screens/Element.cs:111-113 | the layout loop runs to `Children.Items.Length`, the backing array, instead of `Children.Count` | adding a first child to any element: the loop reaches the three null spare slots of the new list and throws `NullReferenceException` | loop over the `Count` live children | high, not executed | Ui.FirstChildAsWritten | Ui.LayoutStacks |
| New/Shared/Tweens/StaticTween.cs:23-26 | `Done` subtracts the activation time, read from `Environment.TickCount` (milliseconds since system start, `BaseTween.cs` line 7), from `Fall.Now` (milliseconds since the game started) | a game started one hour after system start: a 500 ms static tween activated 5 s into the game is still not done 5 s later | compare the tick count with the activation time, as `Tween.Done` and `FromToTween.Done` do | medium, not executed | Tweens.StaticDoneAsWrittenLate | Tweens.StaticDoneAsTweens |
| New/Shared/FontFormat.cs:35-38 | `ToString` interpolates `_code`, a `uint`, so the code is printed as a number | BLACK prints as the section sign followed by "48", and looking up its second character in `VALUES` gives DARKRED | print the code character, the key the format is registered under in `VALUES` | medium, not executed | FontFormats.ToStringMisreads | FontFormats.ToStringIntendedReadsBack |
