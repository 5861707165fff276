/** The two growable GPU-side staging buffers of the engine: the index
    buffer `Ibo` (New/Engine/Ibo.cs) and the vertex buffer `Vbo`
    (New/Engine/Vbo.cs). Only their CPU-side arrays are modelled; binding and
    uploading are GPU effects and are left out. */
module Buffers {
  import opened Wrappers

  /** `Ibo`: the `_indices` array and the fill count `_count`. */
  datatype Ibo = Ibo(indices: seq<int>, count: nat) {
    predicate Valid() {
      count <= |indices|
    }
  }

  /** The filled prefix of an index buffer. */
  function IboLive(b: Ibo): seq<int>
    requires b.Valid()
  {
    b.indices[..b.count]
  }

  /** `new Ibo(initialCapacity, _)`: an empty buffer of that length; a
      negative length makes the array allocation throw. */
  function NewIbo(initialCapacity: int): (r: Result<Ibo>)
    ensures r.Ok? <==> initialCapacity >= 0
    ensures r.Ok? ==> r.value.Valid() && IboLive(r.value) == [] && |r.value.indices| == initialCapacity
  {
    if initialCapacity < 0 then Err("OverflowException")
    else Ok(Ibo(seq(initialCapacity, _ => 0), 0))
  }

  /** `Ibo.Put(element)`: a full buffer is replaced by one of exactly twice
      the length holding the filled prefix; then the element is written at
      `count`. An empty array doubles to an empty array, so a buffer of
      capacity 0 can never make room and the write throws. */
  function PutIbo(b: Ibo, e: int): (r: Result<Ibo>)
    requires b.Valid()
    ensures r.Ok? <==> |b.indices| > 0
    ensures r.Ok? ==> r.value.Valid() && IboLive(r.value) == IboLive(b) + [e]
    ensures r.Ok? && b.count < |b.indices| ==> |r.value.indices| == |b.indices|
    ensures r.Ok? && b.count == |b.indices| ==> |r.value.indices| == 2 * |b.indices|
  {
    var grown :=
      if b.count + 1 > |b.indices| then b.indices[..b.count] + seq(2 * |b.indices| - b.count, _ => 0)
      else b.indices;
    if b.count < |grown| then
      var r := Ibo(grown[b.count := e], b.count + 1);
      assert IboLive(r) == IboLive(b) + [e];
      Ok(r)
    else Err("IndexOutOfRangeException")
  }

  /** `Ibo.Clear`: only the count is reset; the contents stay in place. */
  function ClearIbo(b: Ibo): (r: Ibo)
    ensures r.Valid() && IboLive(r) == []
    ensures r.indices == b.indices
  {
    Ibo(b.indices, 0)
  }

  /** Successive `Put`s of `xs`, stopping at the first failure. */
  function PutAllIbo(b: Ibo, xs: seq<int>): Result<Ibo>
    requires b.Valid()
    decreases |xs|
  {
    if |xs| == 0 then Ok(b)
    else match PutIbo(b, xs[0])
      case Err(m) => Err(m)
      case Ok(b') => PutAllIbo(b', xs[1..])
  }

  /** Putting a sequence into a buffer of positive capacity appends exactly
      that sequence to the filled prefix; into a buffer of capacity 0 the
      first `Put` fails. */
  lemma {:induction false} PutAllIboLive(b: Ibo, xs: seq<int>)
    requires b.Valid()
    ensures |b.indices| > 0 ==> PutAllIbo(b, xs).Ok?
    ensures |b.indices| > 0 ==> PutAllIbo(b, xs).value.Valid()
    ensures |b.indices| > 0 ==> IboLive(PutAllIbo(b, xs).value) == IboLive(b) + xs
    ensures |b.indices| > 0 ==> |PutAllIbo(b, xs).value.indices| >= |b.indices|
    ensures |b.indices| == 0 && |xs| > 0 ==> PutAllIbo(b, xs).Err?
    decreases |xs|
  {
    if |xs| > 0 && |b.indices| > 0 {
      var b' := PutIbo(b, xs[0]).value;
      PutAllIboLive(b', xs[1..]);
      assert IboLive(b) + xs == (IboLive(b) + [xs[0]]) + xs[1..];
    }
  }

  /** A buffer that starts with room for all of `xs` keeps its array length. */
  lemma {:induction false} PutAllIboNoGrowth(b: Ibo, xs: seq<int>)
    requires b.Valid()
    ensures b.count + |xs| <= |b.indices| ==>
      PutAllIbo(b, xs).Ok? && |PutAllIbo(b, xs).value.indices| == |b.indices|
    decreases |xs|
  {
    if |xs| > 0 && b.count + |xs| <= |b.indices| {
      var b' := PutIbo(b, xs[0]).value;
      PutAllIboNoGrowth(b', xs[1..]);
    }
  }

  /** `ArrayPool<T>.Shared.Rent(n)`: the shared pool hands out an array of at
      least `n` elements, whose exact length (`grant(n)`) is the pool's
      choice; `Rent(0)` is always the empty array. */
  ghost predicate Grants(grant: nat -> nat) {
    forall n: nat :: grant(n) >= n
  }

  function RentLength(grant: nat -> nat, n: nat): (len: nat)
    requires Grants(grant)
    ensures len >= n
    ensures n == 0 ==> len == 0
  {
    if n == 0 then 0 else grant(n)
  }

  /** `Vbo<T>`: the `Vertices` array and the fill count `_count`. */
  datatype Vbo<T> = Vbo(vertices: seq<T>, count: nat) {
    predicate Valid() {
      count <= |vertices|
    }
  }

  function VboLive<T>(b: Vbo<T>): seq<T>
    requires b.Valid()
  {
    b.vertices[..b.count]
  }

  /** `new Vbo<T>(initialCapacity, _)`: the array comes from the pool; a
      negative capacity makes `Rent` throw. */
  function NewVbo<T>(grant: nat -> nat, initialCapacity: int, zero: T): (r: Result<Vbo<T>>)
    requires Grants(grant)
    ensures r.Ok? <==> initialCapacity >= 0
    ensures r.Ok? ==> r.value.Valid() && VboLive(r.value) == [] && |r.value.vertices| >= initialCapacity
    ensures r.Ok? && initialCapacity == 0 ==> |r.value.vertices| == 0
  {
    if initialCapacity < 0 then Err("ArgumentOutOfRangeException")
    else Ok(Vbo(seq(RentLength(grant, initialCapacity), _ => zero), 0))
  }

  /** `Vbo.Put(element)`: a full array is returned to the pool and replaced
      by one of at least twice the length holding the filled prefix; then
      the element is written at `count`. A zero-length array can never make
      room, so the write throws. */
  function PutVbo<T>(grant: nat -> nat, b: Vbo<T>, e: T, zero: T): (r: Result<Vbo<T>>)
    requires Grants(grant) && b.Valid()
    ensures r.Ok? <==> |b.vertices| > 0
    ensures r.Ok? ==> r.value.Valid() && VboLive(r.value) == VboLive(b) + [e]
    ensures r.Ok? && b.count < |b.vertices| ==> r.value.vertices == b.vertices[b.count := e]
    ensures r.Ok? && b.count == |b.vertices| ==> |r.value.vertices| >= 2 * |b.vertices|
  {
    var grown :=
      if b.count + 1 > |b.vertices| then
        b.vertices[..b.count] + seq(RentLength(grant, 2 * |b.vertices|) - b.count, _ => zero)
      else b.vertices;
    if b.count < |grown| then
      var r := Vbo(grown[b.count := e], b.count + 1);
      assert VboLive(r) == VboLive(b) + [e];
      Ok(r)
    else Err("IndexOutOfRangeException")
  }

  /** `Vbo.Clear` as written: the count is reset before the clear, so zero
      elements are cleared and every vertex stays in the array. */
  function ClearVboAsWritten<T>(b: Vbo<T>): (r: Vbo<T>)
    ensures r.Valid() && VboLive(r) == []
    ensures r.vertices == b.vertices
  {
    Vbo(b.vertices, 0)
  }

  /** `Vbo.Clear` with the two statements in their evident order: the filled
      prefix is reset to the default value, then the count to zero. */
  function ClearVbo<T>(b: Vbo<T>, zero: T): (r: Vbo<T>)
    requires b.Valid()
    ensures r.Valid() && VboLive(r) == [] && |r.vertices| == |b.vertices|
    ensures forall i | 0 <= i < b.count :: r.vertices[i] == zero
    ensures r.vertices[b.count..] == b.vertices[b.count..]
  {
    Vbo(seq(b.count, _ => zero) + b.vertices[b.count..], 0)
  }

  /** After one `Put` of `v` into an empty buffer, the as-written `Clear`
      still leaves `v` in slot 0, where the whole-array scans of the mesh
      (`ClosestVertex`, `MeshCollision`) see it; the corrected `Clear`
      leaves the default there. */
  lemma ClearVboAsWrittenKeepsStale<T>(grant: nat -> nat, v: T, zero: T)
    requires Grants(grant) && v != zero
    ensures var b := PutVbo(grant, Vbo([zero], 0), v, zero).value;
      ClearVboAsWritten(b).vertices[0] == v && ClearVbo(b, zero).vertices[0] == zero
  {
    var b := PutVbo(grant, Vbo([zero], 0), v, zero).value;
    assert b.vertices == [v] && b.count == 1;
  }

  /** Successive `Put`s into a vertex buffer. */
  function PutAllVbo<T>(grant: nat -> nat, b: Vbo<T>, xs: seq<T>, zero: T): Result<Vbo<T>>
    requires Grants(grant) && b.Valid()
    decreases |xs|
  {
    if |xs| == 0 then Ok(b)
    else match PutVbo(grant, b, xs[0], zero)
      case Err(m) => Err(m)
      case Ok(b') => PutAllVbo(grant, b', xs[1..], zero)
  }

  /** Putting a sequence into a vertex buffer of positive length appends
      exactly that sequence to the filled prefix. */
  lemma {:induction false} PutAllVboLive<T>(grant: nat -> nat, b: Vbo<T>, xs: seq<T>, zero: T)
    requires Grants(grant) && b.Valid()
    ensures |b.vertices| > 0 ==> PutAllVbo(grant, b, xs, zero).Ok?
    ensures |b.vertices| > 0 ==> PutAllVbo(grant, b, xs, zero).value.Valid()
    ensures |b.vertices| > 0 ==> VboLive(PutAllVbo(grant, b, xs, zero).value) == VboLive(b) + xs
    ensures |b.vertices| == 0 && |xs| > 0 ==> PutAllVbo(grant, b, xs, zero).Err?
    decreases |xs|
  {
    if |xs| > 0 && |b.vertices| > 0 {
      var b' := PutVbo(grant, b, xs[0], zero).value;
      PutAllVboLive(grant, b', xs[1..], zero);
      assert VboLive(b) + xs == (VboLive(b) + [xs[0]]) + xs[1..];
    }
  }
}
