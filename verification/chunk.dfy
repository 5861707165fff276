/** Terrain chunks (New/Shared/Worlds/Chunk.cs): a static 8 × 8-cell mesh
    over a 9 × 9 lattice of heights, built once with a memo table so that
    every lattice vertex is emitted exactly once. The height function
    (`Noise`, built on the biome noise) is a parameter. */
module Chunks {
  import opened Wrappers
  import opened Maths
  import Vec
  import opened Buffers
  import opened Meshes

  /** `_quality`, `_quality1`, `_tileSize` and `SIZE`. */
  const Quality: int := 8
  const Quality1: int := 9
  const TileSize: int := 2
  const Size: int := 16

  /** The memo has one entry per lattice point, 81 in all. */
  const Points: int := 81

  /** The memo slot of lattice point `(x, z)`. */
  function Slot(x: int, z: int): int {
    x * Quality1 + z
  }

  /** `get_vertex(x, z)`: lattice point `(x, z)` of the chunk at `(cx, cy)`
      sits at world `(2x + 16·cx, Noise(…), 2z + 16·cy)`. */
  function GridVertex(noise: (int, int) -> real, cx: int, cy: int, x: int, z: int): V3 {
    var wx := x * TileSize + cx * Size;
    var wz := z * TileSize + cy * Size;
    V3(wx as real, noise(wx, wz), wz as real)
  }

  /** Slots enumerate the lattice row by row: slot `9x + z` holds `(x, z)`. */
  lemma SlotRoundTrip(x: int, z: int)
    requires 0 <= x < Quality1 && 0 <= z < Quality1
    ensures 0 <= Slot(x, z) < Points
    ensures Slot(x, z) / Quality1 == x && Slot(x, z) % Quality1 == z
  {
  }

  /** The lattice point stored in memo slot `p`. */
  function SlotVertex(noise: (int, int) -> real, cx: int, cy: int, p: int): V3 {
    GridVertex(noise, cx, cy, p / Quality1, p % Quality1)
  }

  /** A chunk: its position, its mesh and the `_water` flag. */
  datatype Chunk = Chunk(pos: (int, int), mesh: Mesh, water: bool)

  /** The state of the construction loop. */
  datatype Build = Build(memo: seq<int>, mesh: Mesh, water: bool)

  /** The number of filled (not -1) memo entries. */
  function Filled(memo: seq<int>): nat
    ensures Filled(memo) <= |memo|
  {
    if |memo| == 0 then 0
    else Filled(memo[..|memo| - 1]) + (if memo[|memo| - 1] != -1 then 1 else 0)
  }

  /** Filling one empty entry adds one to the count. */
  lemma {:induction false} FilledUpdate(memo: seq<int>, p: int, v: int)
    requires 0 <= p < |memo| && memo[p] == -1 && v != -1
    ensures Filled(memo[p := v]) == Filled(memo) + 1
    decreases |memo|
  {
    var n := |memo| - 1;
    if p < n {
      assert memo[p := v][..n] == memo[..n][p := v];
      FilledUpdate(memo[..n], p, v);
    } else {
      assert memo[p := v][..n] == memo[..n];
    }
  }

  /** A table with no empty entry is full. */
  lemma {:induction false} FilledAll(memo: seq<int>)
    requires forall p | 0 <= p < |memo| :: memo[p] != -1
    ensures Filled(memo) == |memo|
    decreases |memo|
  {
    if |memo| > 0 {
      FilledAll(memo[..|memo| - 1]);
    }
  }

  /** A table of only empty entries counts nothing. */
  lemma {:induction false} FilledNone(memo: seq<int>)
    requires forall p | 0 <= p < |memo| :: memo[p] == -1
    ensures Filled(memo) == 0
    decreases |memo|
  {
    if |memo| > 0 {
      FilledNone(memo[..|memo| - 1]);
    }
  }

  /** The loop invariant: every filled memo entry names the vertex emitted
      for its lattice point; `owner` is the inverse map from vertex index to
      slot; the vertex counter equals the number of emitted vertices and
      the number of filled entries; `_water` records a negative height among
      the emitted vertices. */
  ghost predicate Inv(noise: (int, int) -> real, cx: int, cy: int, b: Build, owner: seq<int>) {
    MeshShape(b, owner) && MemoOwned(b, owner) && OwnerVertices(noise, cx, cy, b, owner)
    && WaterSeen(noise, cx, cy, b, owner)
  }

  ghost predicate MeshShape(b: Build, owner: seq<int>) {
    var m := b.mesh;
    |b.memo| == Points
    && m.Consistent() && m.isStatic && m.building
    && |m.vbo.vertices| > 0 && |m.ibo.indices| > 0
    && m.vertex == m.vbo.count == |owner| == Filled(b.memo)
  }

  ghost predicate MemoOwned(b: Build, owner: seq<int>) {
    |b.memo| == Points
    && (forall p | 0 <= p < Points :: b.memo[p] == -1 || (0 <= b.memo[p] < |owner| && owner[b.memo[p]] == p))
    && (forall k | 0 <= k < |owner| :: 0 <= owner[k] < Points && b.memo[owner[k]] == k)
  }

  ghost predicate OwnerVertices(noise: (int, int) -> real, cx: int, cy: int, b: Build, owner: seq<int>) {
    |owner| <= |b.mesh.vbo.vertices|
    && forall k | 0 <= k < |owner| :: b.mesh.vbo.vertices[k] == SlotVertex(noise, cx, cy, owner[k])
  }

  ghost predicate WaterSeen(noise: (int, int) -> real, cx: int, cy: int, b: Build, owner: seq<int>) {
    b.water <==> exists k | 0 <= k < |owner| :: SlotVertex(noise, cx, cy, owner[k]).y < 0.0
  }

  /** Emitting the vertex of an empty slot `s` as index `|owner|` keeps the
      memo and the inverse map in step. */
  lemma EmitKeepsMemo(b: Build, owner: seq<int>, s: int, b': Build)
    requires MemoOwned(b, owner) && 0 <= s < Points && b.memo[s] == -1
    requires b'.memo == b.memo[s := |owner|]
    ensures MemoOwned(b', owner + [s])
  {
  }

  /** … and the emitted vertices in step with their slots. */
  lemma EmitKeepsVertices(noise: (int, int) -> real, cx: int, cy: int, b: Build, owner: seq<int>, s: int, b': Build)
    requires OwnerVertices(noise, cx, cy, b, owner) && b.mesh.vbo.Valid() && b'.mesh.vbo.Valid()
    requires b.mesh.vbo.count == |owner|
    requires VboLive(b'.mesh.vbo) == VboLive(b.mesh.vbo) + [SlotVertex(noise, cx, cy, s)]
    ensures OwnerVertices(noise, cx, cy, b', owner + [s])
  {
    var m := b'.mesh;
    forall k | 0 <= k < |owner| + 1
      ensures m.vbo.vertices[k] == SlotVertex(noise, cx, cy, (owner + [s])[k])
    {
      assert m.vbo.vertices[k] == VboLive(m.vbo)[k];
      if k < |owner| {
        assert VboLive(b.mesh.vbo)[k] == b.mesh.vbo.vertices[k];
      }
    }
  }

  /** … and the water flag in step with the emitted heights. */
  lemma EmitKeepsWater(noise: (int, int) -> real, cx: int, cy: int, b: Build, owner: seq<int>, s: int, b': Build)
    requires WaterSeen(noise, cx, cy, b, owner)
    requires b'.water == (b.water || SlotVertex(noise, cx, cy, s).y < 0.0)
    ensures WaterSeen(noise, cx, cy, b', owner + [s])
  {
    var o := owner + [s];
    if b.water {
      var k :| 0 <= k < |owner| && SlotVertex(noise, cx, cy, owner[k]).y < 0.0;
      assert o[k] == owner[k];
    } else if SlotVertex(noise, cx, cy, s).y < 0.0 {
      assert o[|owner|] == s;
    } else {
      forall k | 0 <= k < |o|
        ensures SlotVertex(noise, cx, cy, o[k]).y >= 0.0
      {
        if k < |owner| {
          assert o[k] == owner[k];
        }
      }
    }
  }

  /** One `if ((i = memo[s]) == -1) i = memo[s] = Mesh.Put(get_vertex(x, z))`
      step: the memoised index of lattice point `(x, z)`, emitting its
      vertex the first time. */
  method Lookup(grant: nat -> nat, noise: (int, int) -> real, cx: int, cy: int, b: Build, ghost owner: seq<int>, x: int, z: int)
    returns (idx: int, b': Build, ghost owner': seq<int>)
    requires Grants(grant) && Inv(noise, cx, cy, b, owner)
    requires 0 <= x < Quality1 && 0 <= z < Quality1
    ensures Inv(noise, cx, cy, b', owner')
    ensures idx == b'.memo[Slot(x, z)] && idx != -1
    ensures forall p | 0 <= p < Points && b.memo[p] != -1 :: b'.memo[p] == b.memo[p]
    ensures b'.mesh.ibo == b.mesh.ibo && b'.mesh.tris == b.mesh.tris
    ensures b'.mesh.index == b.mesh.index && b'.mesh.triCount == b.mesh.triCount
  {
    idx := b.memo[Slot(x, z)];
    if idx != -1 {
      b', owner' := b, owner;
      return;
    }
    idx, b', owner' := Miss(grant, noise, cx, cy, b, owner, x, z);
  }

  /** The miss branch of `Lookup`: the vertex of `(x, z)` is emitted and
      its index memoised. */
  method Miss(grant: nat -> nat, noise: (int, int) -> real, cx: int, cy: int, b: Build, ghost owner: seq<int>, x: int, z: int)
    returns (idx: int, b': Build, ghost owner': seq<int>)
    requires Grants(grant) && Inv(noise, cx, cy, b, owner)
    requires 0 <= x < Quality1 && 0 <= z < Quality1 && b.memo[Slot(x, z)] == -1
    ensures Inv(noise, cx, cy, b', owner')
    ensures idx == b'.memo[Slot(x, z)] && idx != -1
    ensures forall p | 0 <= p < Points && b.memo[p] != -1 :: b'.memo[p] == b.memo[p]
    ensures b'.mesh.ibo == b.mesh.ibo && b'.mesh.tris == b.mesh.tris
    ensures b'.mesh.index == b.mesh.index && b'.mesh.triCount == b.mesh.triCount
  {
    var s := Slot(x, z);
    SlotRoundTrip(x, z);
    var v := GridVertex(noise, cx, cy, x, z);
    assert v == SlotVertex(noise, cx, cy, s);
    var e := Emit(grant, b.mesh, v);
    var m := e.value.1;
    idx := e.value.0;
    owner' := owner + [s];
    b' := Build(b.memo[s := idx], m, b.water || v.y < 0.0);
    EmitKeepsInv(noise, cx, cy, b, owner, s, b');
  }

  /** Emitting the vertex of an empty slot keeps the loop invariant. */
  lemma EmitKeepsInv(noise: (int, int) -> real, cx: int, cy: int, b: Build, owner: seq<int>, s: int, b': Build)
    requires Inv(noise, cx, cy, b, owner) && 0 <= s < Points && b.memo[s] == -1
    requires b'.memo == b.memo[s := |owner|]
    requires b'.mesh.Valid() && b'.mesh == b.mesh.(vbo := b'.mesh.vbo, vertex := b.mesh.vertex + 1)
    requires VboLive(b'.mesh.vbo) == VboLive(b.mesh.vbo) + [SlotVertex(noise, cx, cy, s)]
    requires b'.water == (b.water || SlotVertex(noise, cx, cy, s).y < 0.0)
    ensures Inv(noise, cx, cy, b', owner + [s])
  {
    FilledUpdate(b.memo, s, |owner|);
    EmitKeepsMemo(b, owner, s, b');
    EmitKeepsVertices(noise, cx, cy, b, owner, s, b');
    EmitKeepsWater(noise, cx, cy, b, owner, s, b');
  }

  /** The triangle records of cell `c = 8i + j`, emitted by
      `Quad(i4, i3, i2, i1)`. */
  function CellTris(memo: seq<int>, c: int): seq<TriIndex>
    requires |memo| == Points && 0 <= c < Quality * Quality
  {
    var i := c / Quality;
    var j := c % Quality;
    var i1 := memo[Slot(i, j)];
    var i2 := memo[Slot(i + 1, j)];
    var i3 := memo[Slot(i + 1, j + 1)];
    var i4 := memo[Slot(i, j + 1)];
    [(i4, i3, i2), (i2, i1, i4)]
  }

  /** The two triangles of the cell in row `i`, column `j`. */
  lemma CellTrisAt(memo: seq<int>, i: int, j: int)
    requires |memo| == Points && 0 <= i < Quality && 0 <= j < Quality
    ensures CellTris(memo, i * Quality + j)
      == [(memo[Slot(i, j + 1)], memo[Slot(i + 1, j + 1)], memo[Slot(i + 1, j)]),
          (memo[Slot(i + 1, j)], memo[Slot(i, j)], memo[Slot(i, j + 1)])]
  {
    var n := i * Quality + j;
    assert n / Quality == i && n % Quality == j;
  }

  /** The four corners of cell `c` are filled. */
  predicate CornersFilled(memo: seq<int>, c: int)
    requires |memo| == Points && 0 <= c < Quality * Quality
  {
    var i := c / Quality;
    var j := c % Quality;
    memo[Slot(i, j)] != -1 && memo[Slot(i + 1, j)] != -1
    && memo[Slot(i + 1, j + 1)] != -1 && memo[Slot(i, j + 1)] != -1
  }

  /** After `n` cells: their corners are filled and their triangles are the
      first `2n` records, six indices each. */
  ghost predicate CellsDone(b: Build, n: int)
    requires |b.memo| == Points && b.mesh.Valid()
  {
    0 <= n <= Quality * Quality
    && |b.mesh.ibo.indices| == 6 * Quality * Quality
    && b.mesh.index == 6 * n && b.mesh.ibo.count == 6 * n
    && b.mesh.triCount == 2 * n && |Vec.Live(b.mesh.tris)| == 2 * n
    && (forall c | 0 <= c < n :: CornersFilled(b.memo, c))
    && (forall c | 0 <= c < n :: Vec.Live(b.mesh.tris)[2 * c..2 * c + 2] == CellTris(b.memo, c))
  }

  /** A `Quad` touches neither the vertices nor the memo, so the
      invariant survives it. */
  lemma QuadKeepsInv(noise: (int, int) -> real, cx: int, cy: int, b: Build, owner: seq<int>, p0: int, p1: int, p2: int, p3: int)
    requires Inv(noise, cx, cy, b, owner)
    ensures Quad(b.mesh, p0, p1, p2, p3).Ok?
    ensures Inv(noise, cx, cy, b.(mesh := Quad(b.mesh, p0, p1, p2, p3).value), owner)
  {
    var m := Quad(b.mesh, p0, p1, p2, p3).value;
    assert |IboLive(m.ibo)| == |IboLive(b.mesh.ibo)| + 6;
    assert |Vec.Live(m.tris)| == |Vec.Live(b.mesh.tris)| + 2;
  }

  /** The cell's triangles follow those of the earlier cells, whose corners
      keep their memo entries. */
  lemma CellStep(b: Build, b4: Build, n: int, i: int, j: int)
    requires |b.memo| == Points && |b4.memo| == Points && b.mesh.Valid() && b4.mesh.Valid()
    requires 0 <= i < Quality && 0 <= j < Quality && n == i * Quality + j
    requires CellsDone(b, n)
    requires forall p | 0 <= p < Points && b.memo[p] != -1 :: b4.memo[p] == b.memo[p]
    requires b4.memo[Slot(i, j)] != -1 && b4.memo[Slot(i + 1, j)] != -1
    requires b4.memo[Slot(i + 1, j + 1)] != -1 && b4.memo[Slot(i, j + 1)] != -1
    requires b4.mesh.ibo == b.mesh.ibo && b4.mesh.tris == b.mesh.tris
    requires b4.mesh.index == b.mesh.index && b4.mesh.triCount == b.mesh.triCount
    ensures var q := Quad(b4.mesh, b4.memo[Slot(i, j + 1)], b4.memo[Slot(i + 1, j + 1)], b4.memo[Slot(i + 1, j)], b4.memo[Slot(i, j)]);
      q.Ok? && CellsDone(b4.(mesh := q.value), n + 1)
  {
    var q := Quad(b4.mesh, b4.memo[Slot(i, j + 1)], b4.memo[Slot(i + 1, j + 1)], b4.memo[Slot(i + 1, j)], b4.memo[Slot(i, j)]);
    var b' := b4.(mesh := q.value);
    CellQuad(b4.mesh, b4.memo, i, j);
    EarlierCellsKept(b.memo, b4.memo, i, j);
    TrisAppended(Vec.Live(b.mesh.tris), Vec.Live(b'.mesh.tris), b.memo, b4.memo, n);
  }

  /** The quad of cell `(i, j)` appends that cell's triangle records. */
  lemma CellQuad(m: Mesh, memo: seq<int>, i: int, j: int)
    requires m.Valid() && m.ibo.count + 6 <= |m.ibo.indices|
    requires |memo| == Points && 0 <= i < Quality && 0 <= j < Quality
    ensures var q := Quad(m, memo[Slot(i, j + 1)], memo[Slot(i + 1, j + 1)], memo[Slot(i + 1, j)], memo[Slot(i, j)]);
      && q.Ok? && q.value.Valid()
      && q.value.index == m.index + 6 && q.value.ibo.count == m.ibo.count + 6
      && q.value.triCount == m.triCount + 2 && |q.value.ibo.indices| == |m.ibo.indices|
      && Vec.Live(q.value.tris) == Vec.Live(m.tris) + CellTris(memo, i * Quality + j)
  {
    var q := Quad(m, memo[Slot(i, j + 1)], memo[Slot(i + 1, j + 1)], memo[Slot(i + 1, j)], memo[Slot(i, j)]);
    assert |IboLive(q.value.ibo)| == |IboLive(m.ibo)| + 6;
    CellTrisAt(memo, i, j);
  }

  /** Filling more memo entries keeps the corners, and so the triangle
      records, of the cells already built. */
  lemma EarlierCellsKept(memo: seq<int>, memo': seq<int>, i: int, j: int)
    requires |memo| == Points && |memo'| == Points && 0 <= i < Quality && 0 <= j < Quality
    requires forall c | 0 <= c < i * Quality + j :: CornersFilled(memo, c)
    requires forall p | 0 <= p < Points && memo[p] != -1 :: memo'[p] == memo[p]
    requires memo'[Slot(i, j)] != -1 && memo'[Slot(i + 1, j)] != -1
    requires memo'[Slot(i + 1, j + 1)] != -1 && memo'[Slot(i, j + 1)] != -1
    ensures forall c | 0 <= c < i * Quality + j :: CellTris(memo', c) == CellTris(memo, c)
    ensures forall c | 0 <= c < i * Quality + j + 1 :: CornersFilled(memo', c)
  {
    var n := i * Quality + j;
    forall c | 0 <= c < n + 1
      ensures CornersFilled(memo', c) && (c < n ==> CellTris(memo', c) == CellTris(memo, c))
    {
      if c < n {
        assert CornersFilled(memo, c);
      } else {
        assert c / Quality == i && c % Quality == j;
      }
    }
  }

  /** Appending cell `n`'s records to those of cells `0 .. n - 1` gives the
      records of cells `0 .. n`. */
  lemma TrisAppended(ts: seq<TriIndex>, ts': seq<TriIndex>, memo: seq<int>, memo': seq<int>, n: int)
    requires |memo| == Points && |memo'| == Points && 0 <= n < Quality * Quality && |ts| == 2 * n
    requires forall c | 0 <= c < n :: CornersFilled(memo, c)
    requires forall c | 0 <= c < n :: ts[2 * c..2 * c + 2] == CellTris(memo, c)
    requires forall c | 0 <= c < n :: CellTris(memo', c) == CellTris(memo, c)
    requires ts' == ts + CellTris(memo', n)
    ensures forall c | 0 <= c < n + 1 :: ts'[2 * c..2 * c + 2] == CellTris(memo', c)
  {
    forall c | 0 <= c < n + 1
      ensures ts'[2 * c..2 * c + 2] == CellTris(memo', c)
    {
      if c < n {
        assert ts'[2 * c..2 * c + 2] == ts[2 * c..2 * c + 2];
      } else {
        assert ts'[2 * c..2 * c + 2] == CellTris(memo', n);
      }
    }
  }

  /** The four lookups of cell `(i, j)`, in the order the source makes
      them. */
  method Corners(grant: nat -> nat, noise: (int, int) -> real, cx: int, cy: int, b: Build, ghost owner: seq<int>, i: int, j: int)
    returns (i1: int, i2: int, i3: int, i4: int, b4: Build, ghost o4: seq<int>)
    requires Grants(grant) && Inv(noise, cx, cy, b, owner)
    requires 0 <= i < Quality && 0 <= j < Quality
    ensures Inv(noise, cx, cy, b4, o4)
    ensures forall p | 0 <= p < Points && b.memo[p] != -1 :: b4.memo[p] == b.memo[p]
    ensures i1 == b4.memo[Slot(i, j)] && i2 == b4.memo[Slot(i + 1, j)]
    ensures i3 == b4.memo[Slot(i + 1, j + 1)] && i4 == b4.memo[Slot(i, j + 1)]
    ensures i1 != -1 && i2 != -1 && i3 != -1 && i4 != -1
    ensures b4.mesh.ibo == b.mesh.ibo && b4.mesh.tris == b.mesh.tris
    ensures b4.mesh.index == b.mesh.index && b4.mesh.triCount == b.mesh.triCount
  {
    var b1, b2, b3;
    ghost var o1, o2, o3;
    i1, b1, o1 := Lookup(grant, noise, cx, cy, b, owner, i, j);
    i2, b2, o2 := Lookup(grant, noise, cx, cy, b1, o1, i + 1, j);
    i3, b3, o3 := Lookup(grant, noise, cx, cy, b2, o2, i + 1, j + 1);
    i4, b4, o4 := Lookup(grant, noise, cx, cy, b3, o3, i, j + 1);
  }

  /** The body of the construction loop for cell `(i, j)`. */
  method Cell(grant: nat -> nat, noise: (int, int) -> real, cx: int, cy: int, b: Build, ghost owner: seq<int>, i: int, j: int)
    returns (b': Build, ghost owner': seq<int>)
    requires Grants(grant) && Inv(noise, cx, cy, b, owner)
    requires 0 <= i < Quality && 0 <= j < Quality && CellsDone(b, i * Quality + j)
    ensures Inv(noise, cx, cy, b', owner')
    ensures CellsDone(b', i * Quality + j + 1)
  {
    var n := i * Quality + j;
    var i1, i2, i3, i4, b4, o4 := Corners(grant, noise, cx, cy, b, owner, i, j);
    QuadKeepsInv(noise, cx, cy, b4, o4, i4, i3, i2, i1);
    CellStep(b, b4, n, i, j);
    var q := Quad(b4.mesh, i4, i3, i2, i1);
    b' := b4.(mesh := q.value);
    owner' := o4;
  }

  /** `new Chunk(chunkPos)`: the static mesh for `8 · 8 = 64` quads
      (`Rent(64)` vertices and 384 indices) is built between `Begin` and
      `End` over the cells in row-major order. The result also carries the
      memo table. */
  method NewChunk(grant: nat -> nat, noise: (int, int) -> real, cx: int, cy: int) returns (c: Chunk, memo: seq<int>)
    requires Grants(grant)
    ensures c.pos == (cx, cy) && c.mesh.isStatic && !c.mesh.building && !c.mesh.dirty
    ensures c.mesh.Consistent() && c.mesh.vertex == Points
    ensures |VboLive(c.mesh.vbo)| == Points && |IboLive(c.mesh.ibo)| == 384 && c.mesh.index == 384
    ensures |Vec.Live(c.mesh.tris)| == 128 && c.mesh.triCount == 128
    ensures |memo| == Points
    ensures forall p | 0 <= p < Points :: 0 <= memo[p] < Points
    ensures forall p, q | 0 <= p < q < Points :: memo[p] != memo[q]
    ensures forall x, z | 0 <= x < Quality1 && 0 <= z < Quality1 ::
      c.mesh.vbo.vertices[memo[Slot(x, z)]] == GridVertex(noise, cx, cy, x, z)
    ensures forall n | 0 <= n < Quality * Quality :: Vec.Live(c.mesh.tris)[2 * n..2 * n + 2] == CellTris(memo, n)
    ensures c.water <==> exists p | 0 <= p < Points :: SlotVertex(noise, cx, cy, p).y < 0.0
  {
    var m0 := NewMesh(grant, true, Quality * Quality).value;
    var m := Begin(m0).value;
    var b := Build(seq(Points, _ => -1), m, false);
    ghost var owner: seq<int> := [];
    FilledNone(b.memo);
    var i := 0;
    while i < Quality
      invariant 0 <= i <= Quality
      invariant Inv(noise, cx, cy, b, owner) && CellsDone(b, i * Quality)
    {
      var j := 0;
      while j < Quality
        invariant 0 <= j <= Quality
        invariant Inv(noise, cx, cy, b, owner) && CellsDone(b, i * Quality + j)
      {
        b, owner := Cell(grant, noise, cx, cy, b, owner, i, j);
        j := j + 1;
      }
      i := i + 1;
    }
    Complete(noise, cx, cy, b, owner);
    c := Chunk((cx, cy), End(b.mesh).value, b.water);
    memo := b.memo;
    forall x, z | 0 <= x < Quality1 && 0 <= z < Quality1
      ensures SlotVertex(noise, cx, cy, Slot(x, z)) == GridVertex(noise, cx, cy, x, z)
    {
      SlotRoundTrip(x, z);
    }
  }

  /** Once all 64 cells are done, every lattice point is filled, the memo
      is a bijection onto the 81 vertex indices, and `_water` records a
      negative height at some lattice point. */
  /** Every lattice point is a corner of some cell, so once all cells are
      done every memo entry is filled. */
  lemma PointCovered(memo: seq<int>, p: int)
    requires |memo| == Points && 0 <= p < Points
    requires forall c | 0 <= c < Quality * Quality :: CornersFilled(memo, c)
    ensures memo[p] != -1
  {
    var x, z := p / Quality1, p % Quality1;
    assert p == Slot(x, z);
    var ci := if x < Quality then x else x - 1;
    var cj := if z < Quality then z else z - 1;
    var cell := ci * Quality + cj;
    assert 0 <= cell < Quality * Quality;
    assert cell / Quality == ci && cell % Quality == cj;
    assert CornersFilled(memo, cell);
  }

  lemma Complete(noise: (int, int) -> real, cx: int, cy: int, b: Build, owner: seq<int>)
    requires Inv(noise, cx, cy, b, owner) && CellsDone(b, Quality * Quality)
    ensures |owner| == Points
    ensures forall p | 0 <= p < Points :: 0 <= b.memo[p] < Points
    ensures forall p, q | 0 <= p < q < Points :: b.memo[p] != b.memo[q]
    ensures forall p | 0 <= p < Points :: b.mesh.vbo.vertices[b.memo[p]] == SlotVertex(noise, cx, cy, p)
    ensures b.water <==> exists p | 0 <= p < Points :: SlotVertex(noise, cx, cy, p).y < 0.0
  {
    forall p | 0 <= p < Points
      ensures b.memo[p] != -1
    {
      PointCovered(b.memo, p);
    }
    FilledAll(b.memo);
    if b.water {
      var k :| 0 <= k < |owner| && SlotVertex(noise, cx, cy, owner[k]).y < 0.0;
      assert 0 <= owner[k] < Points;
    }
  }

  /** `HeightAt(vec)`: the heights at the four lattice points around
      `(X, Y)` interpolated bilinearly. */
  function HeightAt(noise: (int, int) -> real, x: real, y: real): real {
    var x1 := x.Floor;
    var y1 := y.Floor;
    var v00 := noise(x1, y1);
    var v10 := noise(x1 + 1, y1);
    var v01 := noise(x1, y1 + 1);
    var v11 := noise(x1 + 1, y1 + 1);
    var fx := x - x1 as real;
    var fy := y - y1 as real;
    Bilinear(v00, v10, v01, v11, fx, fy)
  }

  /** `(1 - x)(1 - y)·v00 + x(1 - y)·v10 + (1 - x)y·v01 + xy·v11`. */
  function Bilinear(v00: real, v10: real, v01: real, v11: real, fx: real, fy: real): real {
    (1.0 - fx) * (1.0 - fy) * v00 + fx * (1.0 - fy) * v10 + (1.0 - fx) * fy * v01 + fx * fy * v11
  }

  /** At a lattice point the interpolation is the lattice height itself,
      so `HeightAt` agrees with every vertex of the chunk mesh. */
  lemma HeightAtLattice(noise: (int, int) -> real, a: int, b: int)
    ensures HeightAt(noise, a as real, b as real) == noise(a, b)
  {
    assert (a as real).Floor == a && (b as real).Floor == b;
    assert Bilinear(noise(a, b), noise(a + 1, b), noise(a, b + 1), noise(a + 1, b + 1), 0.0, 0.0) == noise(a, b);
  }

  lemma HeightAtVertex(noise: (int, int) -> real, cx: int, cy: int, x: int, z: int)
    ensures var v := GridVertex(noise, cx, cy, x, z); HeightAt(noise, v.x, v.z) == v.y
  {
    HeightAtLattice(noise, x * TileSize + cx * Size, z * TileSize + cy * Size);
  }

  /** Over flat ground the interpolation is flat. */
  lemma BilinearConstant(h: real, fx: real, fy: real)
    ensures Bilinear(h, h, h, h, fx, fy) == h
  {
    var a := (1.0 - fx) * (1.0 - fy);
    var b := fx * (1.0 - fy);
    var c := (1.0 - fx) * fy;
    var d := fx * fy;
    assert a + b + c + d == 1.0;
    assert a * h + b * h + c * h + d * h == (a + b + c + d) * h;
  }

  /** Along the lower edge (`fy = 0`) it is the linear interpolation of the
      two lower corners. */
  lemma BilinearEdge(v00: real, v10: real, v01: real, v11: real, fx: real)
    ensures Bilinear(v00, v10, v01, v11, fx, 0.0) == Lerp(v00, v10, fx)
  {
  }
}
