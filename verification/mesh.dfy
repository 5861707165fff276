/** `Mesh<T>` (New/Engine/Mesh.cs): a vertex buffer, an index buffer and a
    list of triangle records, filled between `Begin` and `End`. Vertices are
    modelled by their positions; the shader, the vertex array object and
    every GL call are left out. */
module Meshes {
  import opened Wrappers
  import opened Maths
  import Vec
  import opened Buffers

  /** A triangle record `(p0, p1, p2)` of vertex indices. */
  type TriIndex = (int, int, int)

  const NoTri: TriIndex := (0, 0, 0)

  /** The mesh fields: `Vbo`, `_ibo`, `Tris`, `_building`, `_index`,
      `_tris`, `Vertex`, `Dirty` and `_static`. */
  datatype Mesh = Mesh(
    vbo: Vbo<V3>,
    ibo: Ibo,
    tris: Vec.Vec<TriIndex>,
    building: bool,
    index: int,
    triCount: int,
    vertex: int,
    dirty: bool,
    isStatic: bool)
  {
    predicate Valid() {
      vbo.Valid() && ibo.Valid() && tris.Valid()
    }

    /** `_index` counts the indices written since the last `Begin` and
        `_tris` the triangle records; a dynamic mesh clears its buffers in
        `Begin`, so there the counters match the buffers exactly. */
    predicate Consistent() {
      Valid()
      && 0 <= index <= ibo.count
      && 0 <= triCount <= tris.count
      && (!isStatic ==> index == ibo.count && triCount == tris.count)
    }
  }

  /** `new Mesh<T>(mode, shader, static, initialCap)`: a vertex buffer rented
      for `initialCap` vertices, an index buffer of `6 · initialCap` and an
      empty triangle list of the default capacity. */
  function NewMesh(grant: nat -> nat, isStatic: bool, initialCap: int): (r: Result<Mesh>)
    requires Grants(grant)
    ensures r.Ok? <==> initialCap >= 0
    ensures r.Ok? ==> r.value.Consistent() && !r.value.building && !r.value.dirty
    ensures r.Ok? ==> |r.value.vbo.vertices| >= initialCap && |r.value.ibo.indices| == 6 * initialCap
    ensures r.Ok? ==> VboLive(r.value.vbo) == [] && IboLive(r.value.ibo) == [] && Vec.Live(r.value.tris) == []
  {
    if initialCap < 0 then Err("ArgumentOutOfRangeException")
    else
      var vbo := NewVbo(grant, initialCap, Zero).value;
      var ibo := NewIbo(initialCap * 6).value;
      Ok(Mesh(vbo, ibo, Vec.Vec(seq(Vec.DefaultCapacity, _ => NoTri), 0), false, 0, 0, 0, false, isStatic))
  }

  /** `Next()`: the current `Vertex`, which is then incremented. */
  function Next(m: Mesh): (r: (int, Mesh))
    ensures r.0 == m.vertex && r.1 == m.(vertex := m.vertex + 1)
  {
    (m.vertex, m.(vertex := m.vertex + 1))
  }

  /** `n` calls of `Next`, and the indices they return. */
  function Nexts(m: Mesh, n: nat): (r: (seq<int>, Mesh))
    ensures |r.0| == n && r.1 == m.(vertex := m.vertex + n)
    decreases n
  {
    if n == 0 then ([], m)
    else
      var (i, m1) := Next(m);
      var (rest, m2) := Nexts(m1, n - 1);
      ([i] + rest, m2)
  }

  /** The indices handed out by `Next` are consecutive from the current
      `Vertex`, so after `Begin` they are 0, 1, 2, … */
  lemma {:induction false} NextsConsecutive(m: Mesh, n: nat)
    ensures forall k | 0 <= k < n :: Nexts(m, n).0[k] == m.vertex + k
    decreases n
  {
    if n > 0 {
      NextsConsecutive(m.(vertex := m.vertex + 1), n - 1);
    }
  }

  /** `Put(vertex)`: appends a vertex to the vertex buffer. */
  function Put(grant: nat -> nat, m: Mesh, v: V3): (r: Result<Mesh>)
    requires Grants(grant) && m.Valid()
    ensures r.Ok? <==> |m.vbo.vertices| > 0
    ensures r.Ok? ==> r.value.Valid() && VboLive(r.value.vbo) == VboLive(m.vbo) + [v]
    ensures r.Ok? ==> r.value == m.(vbo := r.value.vbo)
  {
    var vbo :- PutVbo(grant, m.vbo, v, Zero);
    Ok(m.(vbo := vbo))
  }

  /** `Put(v).Next()`: emits a vertex and returns its index. */
  function Emit(grant: nat -> nat, m: Mesh, v: V3): (r: Result<(int, Mesh)>)
    requires Grants(grant) && m.Valid()
    ensures r.Ok? <==> |m.vbo.vertices| > 0
    ensures r.Ok? ==> r.value.0 == m.vertex && r.value.1.vertex == m.vertex + 1
    ensures r.Ok? ==> r.value.1.Valid() && VboLive(r.value.1.vbo) == VboLive(m.vbo) + [v]
    ensures r.Ok? ==> r.value.1 == m.(vbo := r.value.1.vbo, vertex := m.vertex + 1)
  {
    var m1 :- Put(grant, m, v);
    Ok(Next(m1))
  }

  /** Writes `xs` to the index buffer and advances `_index` by `|xs|`. */
  function PutIndices(m: Mesh, xs: seq<int>): (r: Result<Mesh>)
    requires m.Valid()
    ensures |xs| > 0 ==> (r.Ok? <==> |m.ibo.indices| > 0)
    ensures r.Ok? ==> r.value.Valid() && IboLive(r.value.ibo) == IboLive(m.ibo) + xs
    ensures r.Ok? ==> r.value == m.(ibo := r.value.ibo, index := m.index + |xs|)
    ensures r.Ok? ==> |r.value.ibo.indices| >= |m.ibo.indices|
    ensures r.Ok? && m.ibo.count + |xs| <= |m.ibo.indices| ==> |r.value.ibo.indices| == |m.ibo.indices|
  {
    PutAllIboLive(m.ibo, xs);
    PutAllIboNoGrowth(m.ibo, xs);
    var ibo :- PutAllIbo(m.ibo, xs);
    Ok(m.(ibo := ibo, index := m.index + |xs|))
  }

  /** `Single(p0)`. */
  function Single(m: Mesh, p0: int): (r: Result<Mesh>)
    requires m.Valid()
    ensures r.Ok? <==> |m.ibo.indices| > 0
    ensures r.Ok? ==> r.value.Valid() && IboLive(r.value.ibo) == IboLive(m.ibo) + [p0]
    ensures r.Ok? ==> r.value == m.(ibo := r.value.ibo, index := m.index + 1)
  {
    PutIndices(m, [p0])
  }

  /** `Line(p0, p1)`. */
  function Line(m: Mesh, p0: int, p1: int): (r: Result<Mesh>)
    requires m.Valid()
    ensures r.Ok? <==> |m.ibo.indices| > 0
    ensures r.Ok? ==> r.value.Valid() && IboLive(r.value.ibo) == IboLive(m.ibo) + [p0, p1]
    ensures r.Ok? ==> r.value == m.(ibo := r.value.ibo, index := m.index + 2)
  {
    PutIndices(m, [p0, p1])
  }

  /** `Tri(p0, p1, p2)`: three indices and one triangle record. */
  function Tri(m: Mesh, p0: int, p1: int, p2: int): (r: Result<Mesh>)
    requires m.Valid()
    ensures r.Ok? <==> |m.ibo.indices| > 0
    ensures r.Ok? ==> r.value.Valid() && IboLive(r.value.ibo) == IboLive(m.ibo) + [p0, p1, p2]
    ensures r.Ok? ==> Vec.Live(r.value.tris) == Vec.Live(m.tris) + [(p0, p1, p2)]
    ensures r.Ok? ==> r.value == m.(ibo := r.value.ibo, tris := r.value.tris, index := m.index + 3, triCount := m.triCount + 1)
  {
    var m1 :- PutIndices(m, [p0, p1, p2]);
    Ok(m1.(tris := Vec.Add(m.tris, (p0, p1, p2), NoTri), triCount := m.triCount + 1))
  }

  /** `Quad(p0, p1, p2, p3)`: the two triangles `(p0, p1, p2)` and
      `(p2, p3, p0)`, as six indices and two records. */
  function Quad(m: Mesh, p0: int, p1: int, p2: int, p3: int): (r: Result<Mesh>)
    requires m.Valid()
    ensures r.Ok? <==> |m.ibo.indices| > 0
    ensures r.Ok? ==> r.value.Valid() && IboLive(r.value.ibo) == IboLive(m.ibo) + [p0, p1, p2, p2, p3, p0]
    ensures r.Ok? ==> Vec.Live(r.value.tris) == Vec.Live(m.tris) + [(p0, p1, p2), (p2, p3, p0)]
    ensures r.Ok? ==> r.value == m.(ibo := r.value.ibo, tris := r.value.tris, index := m.index + 6, triCount := m.triCount + 2)
    ensures r.Ok? ==> |r.value.ibo.indices| >= |m.ibo.indices|
    ensures r.Ok? && m.ibo.count + 6 <= |m.ibo.indices| ==> |r.value.ibo.indices| == |m.ibo.indices|
  {
    var m1 :- PutIndices(m, [p0, p1, p2, p2, p3, p0]);
    var t1 := Vec.Add(m.tris, (p0, p1, p2), NoTri);
    Ok(m1.(tris := Vec.Add(t1, (p2, p3, p0), NoTri), triCount := m.triCount + 2))
  }

  /** Every builder call keeps the counters in step with the buffers. */
  lemma BuildersKeepConsistent(grant: nat -> nat, m: Mesh, v: V3, p0: int, p1: int, p2: int, p3: int)
    requires Grants(grant) && m.Consistent()
    ensures Put(grant, m, v).Ok? ==> Put(grant, m, v).value.Consistent()
    ensures Next(m).1.Consistent()
    ensures Single(m, p0).Ok? ==> Single(m, p0).value.Consistent()
    ensures Line(m, p0, p1).Ok? ==> Line(m, p0, p1).value.Consistent()
    ensures Tri(m, p0, p1, p2).Ok? ==> Tri(m, p0, p1, p2).value.Consistent()
    ensures Quad(m, p0, p1, p2, p3).Ok? ==> Quad(m, p0, p1, p2, p3).value.Consistent()
  {
  }

  /** `Begin()`: throws while a build is in progress; otherwise a dynamic
      mesh clears its buffers and triangle records (a static one keeps them),
      and `Vertex` and `_index` restart at 0. Every clear here only resets a
      count (`Vbo.Clear` as written, `Tris.Clear()` the fast clear), so the
      old vertices and records stay in the arrays that `ClosestVertex` and
      the mesh collision scan whole. */
  function Begin(m: Mesh): (r: Result<Mesh>)
    requires m.Valid()
    ensures r.Ok? <==> !m.building
    ensures r.Ok? ==> r.value.Valid() && r.value.building && r.value.vertex == 0 && r.value.index == 0
    ensures r.Ok? && m.Consistent() ==> r.value.Consistent()
    ensures r.Ok? && !m.isStatic ==>
      VboLive(r.value.vbo) == [] && IboLive(r.value.ibo) == [] && Vec.Live(r.value.tris) == [] && r.value.triCount == 0
    ensures r.Ok? && !m.isStatic ==> r.value.vbo.vertices == m.vbo.vertices && r.value.tris.items == m.tris.items
    ensures r.Ok? && m.isStatic ==> r.value == m.(building := true, vertex := 0, index := 0)
    ensures r.Ok? ==> r.value.dirty == m.dirty && r.value.isStatic == m.isStatic
  {
    if m.building then Err("Already building")
    else if !m.isStatic then
      Ok(m.(vbo := ClearVboAsWritten(m.vbo), ibo := ClearIbo(m.ibo), tris := Vec.Clear(m.tris),
            triCount := 0, vertex := 0, index := 0, building := true))
    else
      Ok(m.(vertex := 0, index := 0, building := true))
  }

  /** `End()`: throws unless building or dirty, and always leaves both flags
      cleared. */
  function End(m: Mesh): (r: Result<Mesh>)
    ensures r.Ok? <==> m.building || m.dirty
    ensures r.Ok? ==> r.value == m.(building := false, dirty := false)
  {
    if !m.building && !m.dirty then Err("Not building")
    else Ok(m.(building := false, dirty := false))
  }

  /** `Render()`: ends a pending build, then draws `_index` indices unless
      there are none; a draw adds `_tris` to the frame's triangle counter.
      The result is the mesh afterwards and the counter increment. */
  function Render(m: Mesh): (r: (Mesh, int))
    ensures !r.0.building
    ensures m.building ==> r.0 == m.(building := false, dirty := false)
    ensures !m.building ==> r.0 == m
    ensures m.index <= 0 ==> r.1 == 0
  {
    var m1 := if m.building then End(m).value else m;
    (m1, if m1.index <= 0 then 0 else m1.triCount)
  }

  /** Rendering twice leaves the mesh as rendering once does and draws the
      same triangles again. */
  lemma RenderIdempotent(m: Mesh)
    ensures Render(Render(m).0).0 == Render(m).0
    ensures Render(Render(m).0).1 == Render(m).1
  {
  }

  /** The squared distance `(pos - p).LengthSquared`. */
  function DistSq(pos: V3, p: V3): real {
    pos.Minus(p).LengthSquared()
  }

  /** `ClosestVertex(pos)`: scans the whole `Vertices` array, filled or not,
      keeping the last index of least squared distance; an empty array makes
      the first read throw. */
  method ClosestVertex(m: Mesh, pos: V3) returns (r: Result<(int, V3)>)
    ensures r.Ok? <==> |m.vbo.vertices| > 0
    ensures r.Ok? ==> 0 <= r.value.0 < |m.vbo.vertices| && r.value.1 == m.vbo.vertices[r.value.0]
    ensures r.Ok? ==> forall j | 0 <= j < |m.vbo.vertices| ::
      DistSq(pos, m.vbo.vertices[r.value.0]) <= DistSq(pos, m.vbo.vertices[j])
    ensures r.Ok? ==> forall j | r.value.0 < j < |m.vbo.vertices| ::
      DistSq(pos, m.vbo.vertices[r.value.0]) < DistSq(pos, m.vbo.vertices[j])
  {
    var vs := m.vbo.vertices;
    if |vs| == 0 {
      return Err("IndexOutOfRangeException");
    }
    var closest := 0;
    var dist := DistSq(pos, vs[0]);
    var i := 1;
    while i < |vs|
      invariant 1 <= i <= |vs| && 0 <= closest < i
      invariant dist == DistSq(pos, vs[closest])
      invariant forall j | 0 <= j < i :: dist <= DistSq(pos, vs[j])
      invariant forall j | closest < j < i :: dist < DistSq(pos, vs[j])
    {
      var d := DistSq(pos, vs[i]);
      if d <= dist {
        dist := d;
        closest := i;
      }
      i := i + 1;
    }
    return Ok((closest, vs[closest]));
  }

  /** `SetPos(index, pos)`: moves one vertex and marks the mesh dirty; an
      index outside the array throws. */
  function SetPos(m: Mesh, index: int, pos: V3): (r: Result<Mesh>)
    ensures r.Ok? <==> 0 <= index < |m.vbo.vertices|
    ensures r.Ok? ==> 0 <= index < |r.value.vbo.vertices| && r.value.vbo.vertices[index] == pos && r.value.dirty
    ensures r.Ok? ==> |r.value.vbo.vertices| == |m.vbo.vertices|
    ensures r.Ok? ==> forall j | 0 <= j < |m.vbo.vertices| && j != index :: r.value.vbo.vertices[j] == m.vbo.vertices[j]
    ensures r.Ok? ==> r.value.(vbo := m.vbo, dirty := m.dirty) == m && r.value.vbo.count == m.vbo.count
  {
    if 0 <= index < |m.vbo.vertices| then
      Ok(m.(vbo := m.vbo.(vertices := m.vbo.vertices[index := pos]), dirty := true))
    else Err("IndexOutOfRangeException")
  }

  /** A dirty mesh may be ended again after `SetPos`, even when not
      building, which re-uploads the moved vertex. */
  lemma SetPosThenEnd(m: Mesh, index: int, pos: V3)
    requires 0 <= index < |m.vbo.vertices|
    ensures End(SetPos(m, index, pos).value).Ok?
    ensures !End(SetPos(m, index, pos).value).value.dirty
  {
  }
}
