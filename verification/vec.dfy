/** The growable array `Vec<T>` (New/Shared/Vec.cs).

    A `Vec` is a backing array `items` together with a logical length
    `count`; only the prefix `items[..count]` is live.  Slots beyond `count`
    keep whatever was last written there, because the fast `Clear` only
    resets `count`.  C#'s `default(T)` is passed explicitly as `zero`. */
module Vec {
  import opened Wrappers

  /** Capacity used when an empty backing array has to grow. */
  const DefaultCapacity: nat := 4

  datatype Vec<T> = Vec(items: seq<T>, count: nat) {
    /** The class invariant every public operation keeps. */
    predicate Valid() {
      count <= |items|
    }

    function Capacity(): nat {
      |items|
    }
  }

  /** The live elements. */
  function Live<T>(v: Vec<T>): seq<T>
    requires v.Valid()
  {
    v.items[..v.count]
  }

  /** `new Vec<T>(capacity)`: `new T[capacity]` throws for a negative size. */
  function New<T>(capacity: int, zero: T): (r: Result<Vec<T>>)
    ensures r.Ok? <==> capacity >= 0
    ensures r.Ok? ==> r.value.Valid() && r.value.count == 0 && |r.value.items| == capacity
    ensures r.Ok? ==> forall i | 0 <= i < |r.value.items| :: r.value.items[i] == zero
  {
    if capacity < 0 then Err("negative capacity") else Ok(Vec(seq(capacity, _ => zero), 0))
  }

  /** The `Capacity` setter.  A positive size reallocates and copies the first
      `count` elements (throwing when they do not fit); a non-positive size
      installs the empty array and leaves `count` alone. */
  function SetCapacity<T>(v: Vec<T>, value: int, zero: T): (r: Result<Vec<T>>)
    ensures value == |v.items| ==> r == Ok(v)
    ensures value != |v.items| && value <= 0 ==> r == Ok(Vec([], v.count))
    ensures value != |v.items| && value > 0 ==>
              (r.Ok? <==> v.count == 0 || (v.count <= |v.items| && v.count <= value))
    ensures value != |v.items| && value > 0 && r.Ok? ==>
              && |r.value.items| == value
              && r.value.count == v.count
              && r.value.items[..v.count] == v.items[..v.count]
              && (forall i | v.count <= i < value :: r.value.items[i] == zero)
  {
    if value == |v.items| then Ok(v)
    else if value > 0 then
      if v.count > 0 && (v.count > |v.items| || v.count > value) then Err("Array.Copy out of range")
      else Ok(Vec(v.items[..v.count] + seq(value - v.count, _ => zero), v.count))
    else Ok(Vec([], v.count))
  }

  /** The capacity `EnsureCapacity` asks for when it has to grow. */
  function GrownCapacity(length: nat, min: int): (n: nat)
    ensures n >= min
    ensures length == 0 ==> n >= DefaultCapacity
    ensures length > 0 ==> n >= 2 * length
  {
    var num := if length == 0 then DefaultCapacity else 2 * length;
    if num < min then min else num
  }

  /** `EnsureCapacity(min)`: reports whether it had to reallocate. */
  function EnsureCapacity<T>(v: Vec<T>, min: int, zero: T): (r: (bool, Vec<T>))
    requires v.Valid()
    ensures r.1.Valid() && r.1.count == v.count
    ensures !r.0 <==> |v.items| >= min
    ensures !r.0 ==> r.1 == v
    ensures r.0 ==> |r.1.items| == GrownCapacity(|v.items|, min)
    ensures r.0 ==> |r.1.items| >= min && |r.1.items| > |v.items|
    ensures Live(r.1) == Live(v)
  {
    if |v.items| >= min then (false, v)
    else
      var res := SetCapacity(v, GrownCapacity(|v.items|, min), zero);
      (true, res.value)
  }

  /** `Add(item)`: grow when full, then write at `count`. */
  function Add<T>(v: Vec<T>, x: T, zero: T): (r: Vec<T>)
    requires v.Valid()
    ensures r.Valid() && r.count == v.count + 1
    ensures Live(r) == Live(v) + [x]
    ensures v.count < |v.items| ==> |r.items| == |v.items| && r.items[v.count + 1..] == v.items[v.count + 1..]
    ensures v.count == |v.items| ==> |r.items| == GrownCapacity(|v.items|, v.count + 1)
  {
    var v1 := if v.count == |v.items| then EnsureCapacity(v, v.count + 1, zero).1 else v;
    Vec(v1.items[v.count := x], v.count + 1)
  }

  /** Whether another `Add` fits without reallocating. */
  predicate HasSpare<T>(v: Vec<T>) {
    v.count < |v.items|
  }

  /** `Clear()` is the fast variant: only `count` is reset. */
  function Clear<T>(v: Vec<T>): (r: Vec<T>)
    ensures r.Valid() && Live(r) == []
    ensures r.items == v.items
  {
    Vec(v.items, 0)
  }

  /** `Clear(false)`: the live prefix is overwritten with `zero` first. */
  function ClearSlow<T>(v: Vec<T>, zero: T): (r: Vec<T>)
    requires v.Valid()
    ensures r.Valid() && Live(r) == [] && |r.items| == |v.items|
    ensures forall i | 0 <= i < v.count :: r.items[i] == zero
    ensures r.items[v.count..] == v.items[v.count..]
  {
    Vec(seq(v.count, _ => zero) + v.items[v.count..], 0)
  }

  /** `Insert(index, item)`: grow when full, shift the tail right by one.
      The source does not check `index`: a negative index makes
      `Array.Copy` throw and an index at or past the capacity makes the
      array store throw; an index in (count, capacity) writes there and
      still bumps `count`. */
  function Insert<T>(v: Vec<T>, i: int, x: T, zero: T): (r: Result<Vec<T>>)
    requires v.Valid()
    ensures 0 <= i <= v.count ==> r.Ok? && r.value.Valid() && r.value.count == v.count + 1
    ensures 0 <= i <= v.count ==> Live(r.value) == Live(v)[..i] + [x] + Live(v)[i..]
    ensures i < 0 ==> r.Err?
  {
    var v1 := if v.count == |v.items| then EnsureCapacity(v, v.count + 1, zero).1 else v;
    if i < 0 then Err("negative index")
    else if i >= |v1.items| then Err("index out of range")
    else if i < v.count then
      Ok(Vec(v1.items[..i] + [x] + v1.items[i..v.count] + v1.items[v.count + 1..], v.count + 1))
    else
      Ok(Vec(v1.items[i := x], v.count + 1))
  }

  /** `RemoveAt(index)`: decrement `count`, shift the tail left and reset the
      vacated slot.  On an empty Vec the store to `Items[-1]` throws; any
      index at or past the last element removes the last element. */
  function RemoveAt<T>(v: Vec<T>, i: int, zero: T): (r: Result<Vec<T>>)
    requires v.Valid()
    ensures v.count == 0 ==> r.Err?
    ensures 0 <= i < v.count ==> r.Ok?
    ensures r.Ok? ==> r.value.Valid() && r.value.count == v.count - 1 && |r.value.items| == |v.items|
    ensures r.Ok? ==> r.value.items[r.value.count] == zero
    ensures 0 <= i < v.count ==> Live(r.value) == Live(v)[..i] + Live(v)[i + 1..]
    ensures v.count > 0 && i >= v.count ==> r.Ok? && Live(r.value) == Live(v)[..v.count - 1]
    ensures r.Ok? ==> r.value.items[v.count..] == v.items[v.count..]
  {
    if v.count == 0 then Err("index -1 out of range")
    else
      var c := v.count - 1;
      if i < c then
        if i < 0 then Err("negative index")
        else Ok(Vec(v.items[..i] + v.items[i + 1..v.count] + [zero] + v.items[v.count..], c))
      else Ok(Vec(v.items[c := zero], c))
  }

  lemma {:induction false} InsertThenRemoveAt<T>(v: Vec<T>, i: int, x: T, zero: T)
    requires v.Valid() && 0 <= i <= v.count
    ensures Insert(v, i, x, zero).Ok?
    ensures RemoveAt(Insert(v, i, x, zero).value, i, zero).Ok?
    ensures Live(RemoveAt(Insert(v, i, x, zero).value, i, zero).value) == Live(v)
  {
    var w := Insert(v, i, x, zero).value;
    var L := Live(v);
    assert Live(w) == L[..i] + [x] + L[i..];
    var u := RemoveAt(w, i, zero).value;
    assert Live(u) == Live(w)[..i] + Live(w)[i + 1..];
    assert Live(w)[..i] == L[..i];
    assert Live(w)[i + 1..] == L[i..];
    assert L[..i] + L[i..] == L;
  }

  lemma {:induction false} RemoveAtThenInsert<T>(v: Vec<T>, i: int, zero: T)
    requires v.Valid() && 0 <= i < v.count
    ensures RemoveAt(v, i, zero).Ok?
    ensures Insert(RemoveAt(v, i, zero).value, i, v.items[i], zero).Ok?
    ensures Live(Insert(RemoveAt(v, i, zero).value, i, v.items[i], zero).value) == Live(v)
  {
    var L := Live(v);
    var w := RemoveAt(v, i, zero).value;
    assert Live(w) == L[..i] + L[i + 1..];
    var u := Insert(w, i, v.items[i], zero).value;
    assert Live(u) == Live(w)[..i] + [v.items[i]] + Live(w)[i..];
    assert Live(w)[..i] == L[..i];
    assert Live(w)[i..] == L[i + 1..];
    assert L == L[..i] + [L[i]] + L[i + 1..];
  }

  /** `IndexOf(item)`: `Array.IndexOf(Items, item, 0, Count)`. */
  method IndexOf<T(==)>(v: Vec<T>, x: T) returns (r: int)
    requires v.Valid()
    ensures -1 <= r < v.count
    ensures r == -1 <==> x !in Live(v)
    ensures r >= 0 ==> v.items[r] == x && x !in v.items[..r]
  {
    var j := 0;
    while j < v.count
      invariant 0 <= j <= v.count
      invariant x !in v.items[..j]
    {
      if v.items[j] == x {
        return j;
      }
      j := j + 1;
    }
    assert v.items[..j] == Live(v);
    return -1;
  }

  /** `Contains(item)`: a linear scan of the live prefix only. */
  method Contains<T(==)>(v: Vec<T>, x: T) returns (b: bool)
    requires v.Valid()
    ensures b <==> x in Live(v)
  {
    var j := 0;
    while j < v.count
      invariant 0 <= j <= v.count
      invariant x !in v.items[..j]
    {
      if v.items[j] == x {
        return true;
      }
      j := j + 1;
    }
    assert v.items[..j] == Live(v);
    return false;
  }

  /** The elements of `s` that `pred` rejects, in order. */
  function Keep<T>(s: seq<T>, pred: T -> bool): (k: seq<T>)
    ensures |k| <= |s|
  {
    if |s| == 0 then []
    else Keep(s[..|s| - 1], pred) + (if pred(s[|s| - 1]) then [] else [s[|s| - 1]])
  }

  /** The elements of `s` that `pred` accepts, in order. */
  function Matching<T>(s: seq<T>, pred: T -> bool): (m: seq<T>)
    ensures |m| <= |s|
  {
    if |s| == 0 then []
    else Matching(s[..|s| - 1], pred) + (if pred(s[|s| - 1]) then [s[|s| - 1]] else [])
  }

  lemma {:induction false} KeepContents<T>(s: seq<T>, pred: T -> bool)
    ensures forall y :: y in Keep(s, pred) <==> y in s && !pred(y)
  {
    if |s| > 0 {
      KeepContents(s[..|s| - 1], pred);
      assert s == s[..|s| - 1] + [s[|s| - 1]];
    }
  }

  lemma {:induction false} KeepMatchingSizes<T>(s: seq<T>, pred: T -> bool)
    ensures |Keep(s, pred)| + |Matching(s, pred)| == |s|
  {
    if |s| > 0 {
      KeepMatchingSizes(s[..|s| - 1], pred);
    }
  }

  /** One step of the `RemoveAll` scan over `L`, `index` elements kept so
      far and the rest of `L` still in place after them. */
  lemma KeepStep<T>(live: seq<T>, L: seq<T>, j: nat, index: nat, pred: T -> bool)
    requires index < |live| && j < |L|
    requires live[..index] == Keep(L[..j], pred) && live[index..] == L[j..]
    ensures live[index] == L[j] && live[index + 1..] == L[j + 1..]
    ensures Keep(L[..j + 1], pred) == if pred(L[j]) then live[..index] else live[..index + 1]
    ensures Matching(L[..j + 1], pred) == Matching(L[..j], pred) + if pred(L[j]) then [L[j]] else []
  {
    assert L[..j + 1][..j] == L[..j];
    assert live[index] == live[index..][0];
    assert live[index + 1..] == live[index..][1..];
    assert live[..index + 1] == live[..index] + [live[index]];
  }

  /** `Keep` and `Matching` distribute over concatenation. */
  lemma {:induction false} KeepAppend<T>(a: seq<T>, b: seq<T>, pred: T -> bool)
    ensures Keep(a + b, pred) == Keep(a, pred) + Keep(b, pred)
    ensures Matching(a + b, pred) == Matching(a, pred) + Matching(b, pred)
    decreases |b|
  {
    if |b| > 0 {
      var b' := b[..|b| - 1];
      assert (a + b)[..|a + b| - 1] == a + b';
      KeepAppend(a, b', pred);
    } else {
      assert a + b == a;
    }
  }

  /** A sequence none of whose elements `pred` accepts is kept whole. */
  lemma {:induction false} KeepNone<T>(s: seq<T>, pred: T -> bool)
    requires forall k | 0 <= k < |s| :: !pred(s[k])
    ensures Keep(s, pred) == s && Matching(s, pred) == []
  {
    if |s| > 0 {
      KeepNone(s[..|s| - 1], pred);
      assert s[..|s| - 1] + [s[|s| - 1]] == s;
    }
  }

  /** One removing step of a `RemoveAll` scan whose callback appended `N`
      to the list before the element at `index` was removed: the scan is
      then over `L + N`, one element further. */
  lemma DropStep<T>(A: seq<T>, N: seq<T>, L: seq<T>, j: nat, index: nat, pred: T -> bool)
    requires index < |A| && j < |L|
    requires A[..index] == Keep(L[..j], pred) && A[index..] == L[j..] && pred(L[j])
    ensures var B := A + N;
      && (B[..index] + B[index + 1..])[..index] == Keep((L + N)[..j + 1], pred)
      && (B[..index] + B[index + 1..])[index..] == (L + N)[j + 1..]
      && Matching((L + N)[..j + 1], pred) == Matching(L[..j], pred) + [L[j]]
  {
    KeepStep(A, L, j, index, pred);
    var B := A + N;
    assert (L + N)[..j + 1] == L[..j + 1];
    assert (B[..index] + B[index + 1..])[..index] == A[..index];
    assert B[index + 1..] == A[index + 1..] + N;
    assert (L + N)[j + 1..] == L[j + 1..] + N;
  }

  /** A keeping step of the same scan: the callback did not run, so the
      list is unchanged and the scan moves past the element. */
  lemma KeepOn<T>(A: seq<T>, N: seq<T>, L: seq<T>, j: nat, index: nat, pred: T -> bool)
    requires index < |A| && j < |L|
    requires A[..index] == Keep(L[..j], pred) && A[index..] == L[j..] && !pred(L[j])
    ensures A[..index + 1] == Keep(L[..j + 1], pred) && A[index + 1..] == L[j + 1..]
    ensures Matching(L[..j + 1], pred) == Matching(L[..j], pred)
  {
    KeepStep(A, L, j, index, pred);
  }

  /** `RemoveAll(pred, ifRemoved)`: `removed` lists the arguments of the
      `ifRemoved` calls, in call order. */
  method RemoveAll<T>(v: Vec<T>, pred: T -> bool, zero: T) returns (r: Vec<T>, removed: seq<T>)
    requires v.Valid()
    ensures r.Valid() && |r.items| == |v.items|
    ensures Live(r) == Keep(Live(v), pred)
    ensures removed == Matching(Live(v), pred)
  {
    var L := Live(v);
    r := v;
    removed := [];
    var index := 0;
    ghost var j := 0;
    while index < r.count
      invariant r.Valid() && |r.items| == |v.items|
      invariant 0 <= index <= r.count && 0 <= j <= |L|
      invariant Live(r)[..index] == Keep(L[..j], pred)
      invariant Live(r)[index..] == L[j..]
      invariant removed == Matching(L[..j], pred)
      decreases r.count - index
    {
      KeepStep(Live(r), L, j, index, pred);
      assert L[j] == r.items[index];
      if pred(r.items[index]) {
        removed := removed + [r.items[index]];
        var res := RemoveAt(r, index, zero);
        r := res.value;
      } else {
        index := index + 1;
      }
      j := j + 1;
    }
    assert L[..j] == L;
  }

  /** `InsertRange(index, collection)` for a collection other than this Vec:
      grow to fit, shift the tail right by `|xs|`, copy `xs` in. */
  function InsertRange<T>(v: Vec<T>, index: int, xs: seq<T>, zero: T): (r: Result<Vec<T>>)
    requires v.Valid()
    ensures 0 <= index <= v.count ==> r.Ok? && r.value.Valid()
    ensures 0 <= index <= v.count ==> Live(r.value) == Live(v)[..index] + xs + Live(v)[index..]
    ensures index < 0 && |xs| > 0 ==> r.Err?
  {
    var n := |xs|;
    if n == 0 then Ok(v)
    else
      var v1 := EnsureCapacity(v, v.count + n, zero).1;
      if index < 0 then Err("negative index")
      else if index + n > |v1.items| then Err("CopyTo out of range")
      else if index < v.count then
        Ok(Vec(v1.items[..index] + xs + v1.items[index..v.count] + v1.items[v.count + n..], v.count + n))
      else
        Ok(Vec(v1.items[..index] + xs + v1.items[index + n..], v.count + n))
  }

  /** `AddRange(collection)` is `InsertRange(Count, collection)`. */
  function AddRange<T>(v: Vec<T>, xs: seq<T>, zero: T): (r: Vec<T>)
    requires v.Valid()
    ensures r.Valid() && r.count == v.count + |xs|
    ensures Live(r) == Live(v) + xs
    ensures |xs| > 0 && v.count + |xs| <= |v.items| ==> |r.items| == |v.items|
  {
    var res := InsertRange(v, v.count, xs, zero);
    assert Live(v)[v.count..] == [];
    assert Live(v)[..v.count] == Live(v);
    res.value
  }

  /** `InsertRange(index, this)`: the branch for inserting a Vec into itself.
      After the shift, two further copies place the old prefix and the old
      suffix, so the whole old content appears once more at `index`. */
  function InsertRangeSelf<T>(v: Vec<T>, index: int, zero: T): (r: Result<Vec<T>>)
    requires v.Valid()
    ensures 0 <= index <= v.count ==> r.Ok? && r.value.Valid()
    ensures 0 <= index <= v.count ==> Live(r.value) == Live(v)[..index] + Live(v) + Live(v)[index..]
  {
    var c := v.count;
    if c == 0 then Ok(v)
    else
      var v1 := EnsureCapacity(v, 2 * c, zero).1;
      if index < 0 || index > c then Err("index out of range")
      else
        var a := v1.items;
        var a3 := SelfInsertCopies(a, c, index);
        SelfInsertLayout(a, c, index);
        Ok(Vec(a3, 2 * c))
  }

  /** `Array.Copy(a, src, a, dst, len)` within one array: the `len`
      elements from `src` land at `dst`, read as if copied out first, so
      overlapping ranges move intact; every other slot is unchanged. */
  function CopyWithin<T>(a: seq<T>, src: nat, dst: nat, len: nat): (b: seq<T>)
    requires src + len <= |a| && dst + len <= |a|
    ensures |b| == |a|
    ensures forall k | 0 <= k < |a| :: b[k] == if dst <= k < dst + len then a[src + k - dst] else a[k]
  {
    a[..dst] + a[src..src + len] + a[dst + len..]
  }

  /** The three `Array.Copy` calls of `InsertRange` when the range is the
      vector itself, on a backing array `a` holding `c` live elements and
      room for `2c`: shift the tail `[index, c)` to `[index + c, 2c)`,
      copy the prefix `[0, index)` to `[index, 2 index)`, then copy the
      shifted tail back to `[2 index, index + c)`. */
  function SelfInsertCopies<T>(a: seq<T>, c: nat, index: nat): (a3: seq<T>)
    requires index <= c && 2 * c <= |a|
    ensures |a3| == |a|
  {
    var a1 := CopyWithin(a, index, index + c, c - index);
    var a2 := CopyWithin(a1, 0, index, index);
    CopyWithin(a2, index + c, 2 * index, c - index)
  }

  /** After the copies the first `2c` slots hold the live elements with a
      second copy of them inserted at `index`. */
  lemma SelfInsertLayout<T>(a: seq<T>, c: nat, index: nat)
    requires index <= c && 2 * c <= |a|
    ensures SelfInsertCopies(a, c, index)[..2 * c] == a[..c][..index] + a[..c] + a[..c][index..]
  {
    var a1 := CopyWithin(a, index, index + c, c - index);
    var a2 := CopyWithin(a1, 0, index, index);
    var a3 := CopyWithin(a2, index + c, 2 * index, c - index);
    var want := a[..c][..index] + a[..c] + a[..c][index..];
    assert |want| == 2 * c;
    forall k | 0 <= k < 2 * c
      ensures a3[k] == want[k]
    {
      if k < index {
        assert a3[k] == a2[k] == a1[k] == a[k];
        assert want[k] == a[k];
      } else if k < 2 * index {
        assert a3[k] == a2[k] == a1[k - index] == a[k - index];
        assert want[k] == a[k - index];
      } else if k < index + c {
        assert a3[k] == a2[k - index + c] == a1[k - index + c] == a[k - index];
        assert want[k] == a[k - index];
      } else {
        assert a3[k] == a2[k] == a1[k] == a[k - c];
        assert want[k] == a[k - c];
      }
    }
    assert a3[..2 * c] == want;
  }
}
