/** The random source behind `Rand` (New/Shared/Extensions.cs).

    `Random.Shared` is modelled as an abstract stream of draws: `draw(k)` is the
    k-th raw sample, and a generator state is just the position of the next one.
    Every operation consumes exactly one draw. */
module Rand {
  import opened Wrappers
  import Maths

  /** Resolution of `NextSingle`: 24 bits of the raw draw. */
  const SingleScale: nat := 0x100_0000

  const Int32Span: int := 0x1_0000_0000
  const Int32Max: int := 0x7FFF_FFFF

  /** `Random.Shared.NextSingle()`: a value in [0, 1). */
  function NextSingle(draw: nat -> nat, pos: nat): (r: real)
    ensures 0.0 <= r < 1.0
  {
    (draw(pos) % SingleScale) as real / SingleScale as real
  }

  /** `NextFloat(min, max)`: `NextSingle() * (max - min) + min`. */
  function NextFloat(draw: nat -> nat, pos: nat, min: real, max: real): (r: real)
    ensures min < max ==> min <= r < max
    ensures min == max ==> r == min
  {
    var u := NextSingle(draw, pos);
    var r := Maths.Scale(u, max - min) + min;
    assert min < max ==> min <= r < max by {
      if min < max {
        Maths.ScaleUnit(u, max - min);
      }
    }
    assert min == max ==> r == min by {
      if min == max {
        Maths.ScaleZero(u);
      }
    }
    r
  }

  /** `Random.Next(min, max)`: throws when `min > max`, yields `min` for an
      empty range, and otherwise a value in [min, max). */
  function Next(draw: nat -> nat, pos: nat, min: int, max: int): (r: Result<int>)
    ensures r.Err? <==> min > max
    ensures r.Ok? && min == max ==> r.value == min
    ensures r.Ok? && min < max ==> min <= r.value < max
  {
    if min > max then Err("ArgumentOutOfRangeException")
    else if min == max then Ok(min)
    else Ok(min + draw(pos) % (max - min))
  }

  /** C#'s unchecked `(int)` cast of a `uint`. */
  function UIntToInt(u: nat): (i: int)
    requires u < Int32Span
    ensures -0x8000_0000 <= i <= Int32Max
    ensures u <= Int32Max ==> i == u
  {
    if u <= Int32Max then u else u - Int32Span
  }

  /** C#'s unchecked `(uint)` cast of an `int`. */
  function IntToUInt(i: int): (u: nat)
    ensures u < Int32Span
    ensures 0 <= i < Int32Span ==> u == i
  {
    i % Int32Span
  }

  /** `NextUInt(min, max)`: `(uint)Next((int)min, (int)max)`. For bounds that
      fit in an `int` the result lies in [min, max), or is `min` when the two
      are equal. */
  function NextUInt(draw: nat -> nat, pos: nat, min: nat, max: nat): (r: Result<nat>)
    requires min < Int32Span && max < Int32Span
    ensures min <= max <= Int32Max ==> r.Ok?
    ensures min <= max <= Int32Max && min < max ==> min <= r.value < max
    ensures min <= max <= Int32Max && min == max ==> r.value == min
    ensures max < min <= Int32Max ==> r.Err?
  {
    var lo := UIntToInt(min);
    var hi := UIntToInt(max);
    match Next(draw, pos, lo, hi)
    case Err(m) => Err(m)
    case Ok(n) =>
      Ok(IntToUInt(n))
  }

  /** `long.MaxValue`, the exclusive upper bound of `NextInt64()`. */
  const Int64Max: int := 0x7FFF_FFFF_FFFF_FFFF

  /** `NextLong()`: `NextInt64()`, a draw in [0, `long.MaxValue`), used for
      entity ids. */
  function NextLong(draw: nat -> nat, pos: nat): (r: nat)
    ensures r < Int64Max
    ensures draw(pos) < Int64Max ==> r == draw(pos)
  {
    draw(pos) % Int64Max
  }
}

/** String formatting, angle conversion and chunk coordinates
    (New/Shared/Extensions.cs). */
module Extensions {
  import Maths

  /** Number of occurrences of `c` in `s`. */
  function Occurrences(s: string, c: char): nat
    decreases |s|
  {
    if |s| == 0 then 0 else Occurrences(s[..|s| - 1], c) + (if s[|s| - 1] == c then 1 else 0)
  }

  /** Counting is additive over concatenation. */
  lemma {:induction false} OccursAppend(a: string, b: string, c: char)
    ensures Occurrences(a + b, c) == Occurrences(a, c) + Occurrences(b, c)
    decreases |b|
  {
    if |b| == 0 {
      assert a + b == a;
    } else {
      var n := |b| - 1;
      OccursAppend(a, b[..n], c);
      assert (a + b)[..|a + b| - 1] == a + b[..n];
    }
  }

  /** A character that does not occur in `s` is counted zero times, and
      one that does is counted at least once. */
  lemma {:induction false} OccursAbsent(s: string, c: char)
    ensures c !in s <==> Occurrences(s, c) == 0
    decreases |s|
  {
    if |s| > 0 {
      var n := |s| - 1;
      OccursAbsent(s[..n], c);
      assert s == s[..n] + [s[n]];
      assert c in s <==> c in s[..n] || c == s[n];
    }
  }

  /** The items joined by ", ". */
  function Join(items: seq<string>): string
  {
    if |items| == 0 then ""
    else if |items| == 1 then items[0]
    else Join(items[..|items| - 1]) + ", " + items[|items| - 1]
  }

  /** Every item followed by ", ", as the `foreach` loop of `ContentToString`
      accumulates it. */
  function Terminated(items: seq<string>): string
  {
    if |items| == 0 then ""
    else Terminated(items[..|items| - 1]) + items[|items| - 1] + ", "
  }

  lemma {:induction false} TerminatedIsJoin(items: seq<string>)
    requires |items| > 0
    ensures Terminated(items) == Join(items) + ", "
    decreases |items|
  {
    if |items| > 1 {
      TerminatedIsJoin(items[..|items| - 1]);
    }
  }

  /** `ContentToString(IEnumerable)`: the items' text between brackets,
      separated by ", ", and "[]" for no items. */
  method ContentToString(items: seq<string>) returns (o: string)
    ensures o == "[" + Join(items) + "]"
    ensures |items| == 0 ==> o == "[]"
  {
    o := "[";
    var i := 0;
    while i < |items|
      invariant 0 <= i <= |items|
      invariant o == "[" + Terminated(items[..i])
    {
      assert items[..i + 1][..i] == items[..i];
      o := o + items[i] + ", ";
      i := i + 1;
    }
    assert items[..i] == items;
    if |o| != 1 {
      TerminatedIsJoin(items);
      o := o[..|o| - 2];
    }
    o := o + "]";
  }

  /** The text one dictionary entry contributes: "(key, value), ". */
  function PairText(key: string, value: string): string
  {
    "(" + key + ", " + value + "), "
  }

  function Pairs(entries: seq<(string, string)>): string
  {
    if |entries| == 0 then ""
    else
      var e := entries[|entries| - 1];
      Pairs(entries[..|entries| - 1]) + PairText(e.0, e.1)
  }

  /** "Map<K, V>(" for key and value type names `K` and `V`. */
  function MapHeader(keyType: string, valueType: string): string
  {
    "Map<" + keyType + ", " + valueType + ">("
  }

  /** `ContentToString(Dictionary)` as written: after the entries it removes
      three characters, which takes the last entry's ')' along with the ", ". */
  function MapContentToStringAsWritten(keyType: string, valueType: string, entries: seq<(string, string)>): (o: string)
    ensures |entries| == 0 ==> o == MapHeader(keyType, valueType) + ")"
  {
    var p := Pairs(entries);
    var body := if |entries| > 0 then (PairsLength(entries); p[..|p| - 3]) else p;
    MapHeader(keyType, valueType) + body + ")"
  }

  /** The evidently intended formatting: only the trailing ", " is removed. */
  function MapContentToString(keyType: string, valueType: string, entries: seq<(string, string)>): (o: string)
    ensures |entries| == 0 ==> o == MapHeader(keyType, valueType) + ")"
  {
    var p := Pairs(entries);
    var body := if |entries| > 0 then (PairsLength(entries); p[..|p| - 2]) else p;
    MapHeader(keyType, valueType) + body + ")"
  }

  lemma PairsLength(entries: seq<(string, string)>)
    requires |entries| > 0
    ensures |Pairs(entries)| >= 6
    ensures Pairs(entries)[|Pairs(entries)| - 3..] == "), "
  {
    var e := entries[|entries| - 1];
    var t := PairText(e.0, e.1);
    assert Pairs(entries) == Pairs(entries[..|entries| - 1]) + t;
    assert t[|t| - 3..] == "), ";
  }

  /** The corrected output is the as-written output with the lost ')'
      restored. */
  lemma MapContentToStringRestoresParen(keyType: string, valueType: string, entries: seq<(string, string)>)
    requires |entries| > 0
    ensures MapContentToString(keyType, valueType, entries)
         == MapContentToStringAsWritten(keyType, valueType, entries) + ")"
  {
    var p := Pairs(entries);
    PairsLength(entries);
    assert p[..|p| - 2] == p[..|p| - 3] + ")";
  }

  /** No parentheses in `s`. */
  predicate ParenFree(s: string)
  {
    '(' !in s && ')' !in s
  }

  predicate EntriesParenFree(entries: seq<(string, string)>)
  {
    forall k :: 0 <= k < |entries| ==> ParenFree(entries[k].0) && ParenFree(entries[k].1)
  }

  lemma {:induction false} PairsParens(entries: seq<(string, string)>)
    requires EntriesParenFree(entries)
    ensures Occurrences(Pairs(entries), '(') == |entries|
    ensures Occurrences(Pairs(entries), ')') == |entries|
    decreases |entries|
  {
    if |entries| > 0 {
      var front := entries[..|entries| - 1];
      var e := entries[|entries| - 1];
      assert EntriesParenFree(front) by {
        forall k | 0 <= k < |front| ensures ParenFree(front[k].0) && ParenFree(front[k].1) {
          assert front[k] == entries[k];
        }
      }
      PairsParens(front);
      PairTextParens(e.0, e.1);
      OccursAppend(Pairs(front), PairText(e.0, e.1), '(');
      OccursAppend(Pairs(front), PairText(e.0, e.1), ')');
    }
  }

  /** The parentheses in the pieces of literal text a formatted map is
      built from. */
  lemma LiteralParens()
    ensures Occurrences("(", '(') == 1 && Occurrences("(", ')') == 0
    ensures Occurrences(")", '(') == 0 && Occurrences(")", ')') == 1
    ensures Occurrences(", ", '(') == 0 && Occurrences(", ", ')') == 0
    ensures Occurrences("), ", '(') == 0 && Occurrences("), ", ')') == 1
    ensures Occurrences("Map<", '(') == 0 && Occurrences("Map<", ')') == 0
    ensures Occurrences(">(", '(') == 1 && Occurrences(">(", ')') == 0
  {
    OccursAbsent(", ", '(');
    OccursAbsent(", ", ')');
    OccursAbsent("Map<", '(');
    OccursAbsent("Map<", ')');
    assert "), "[..2] == ")," && "),"[..1] == ")" && ")"[..0] == "";
    assert ">("[..1] == ">" && ">"[..0] == "";
    assert "("[..0] == "";
  }

  /** Counts of `c` in a concatenation of five pieces. */
  lemma Occurs5(a: string, b: string, d: string, e: string, f: string, c: char)
    ensures Occurrences(a + b + d + e + f, c)
      == Occurrences(a, c) + Occurrences(b, c) + Occurrences(d, c) + Occurrences(e, c) + Occurrences(f, c)
  {
    OccursAppend(a, b, c);
    OccursAppend(a + b, d, c);
    OccursAppend(a + b + d, e, c);
    OccursAppend(a + b + d + e, f, c);
  }

  /** One entry with paren-free key and value has one '(' and one ')'. */
  lemma PairTextParens(key: string, value: string)
    requires ParenFree(key) && ParenFree(value)
    ensures Occurrences(PairText(key, value), '(') == 1 && Occurrences(PairText(key, value), ')') == 1
  {
    LiteralParens();
    OccursAbsent(key, '(');
    OccursAbsent(key, ')');
    OccursAbsent(value, '(');
    OccursAbsent(value, ')');
    Occurs5("(", key, ", ", value, "), ", '(');
    Occurs5("(", key, ", ", value, "), ", ')');
  }

  /** Counts of '(' and ')' in a formatted map, given paren-free names. */
  lemma MapParens(keyType: string, valueType: string, body: string)
    requires ParenFree(keyType) && ParenFree(valueType)
    ensures Occurrences(MapHeader(keyType, valueType) + body + ")", '(') == Occurrences(body, '(') + 1
    ensures Occurrences(MapHeader(keyType, valueType) + body + ")", ')') == Occurrences(body, ')') + 1
  {
    var h := MapHeader(keyType, valueType);
    LiteralParens();
    OccursAbsent(keyType, '(');
    OccursAbsent(keyType, ')');
    OccursAbsent(valueType, '(');
    OccursAbsent(valueType, ')');
    Occurs5("Map<", keyType, ", ", valueType, ">(", '(');
    Occurs5("Map<", keyType, ", ", valueType, ">(", ')');
    OccursAppend(h, body, '(');
    OccursAppend(h, body, ')');
    OccursAppend(h + body, ")", '(');
    OccursAppend(h + body, ")", ')');
  }

  /** With paren-free type names, keys and values, the as-written output of a
      non-empty map has exactly one more '(' than ')'. */
  lemma {:induction false} MapContentToStringAsWrittenUnbalanced(keyType: string, valueType: string, entries: seq<(string, string)>)
    requires ParenFree(keyType) && ParenFree(valueType) && EntriesParenFree(entries)
    requires |entries| > 0
    ensures var o := MapContentToStringAsWritten(keyType, valueType, entries);
      Occurrences(o, '(') == Occurrences(o, ')') + 1
  {
    var p := Pairs(entries);
    PairsLength(entries);
    PairsParens(entries);
    var body := p[..|p| - 3];
    assert p == body + "), ";
    OccursAppend(body, "), ", '(');
    OccursAppend(body, "), ", ')');
    LiteralParens();
    MapParens(keyType, valueType, body);
  }

  /** The corrected output balances its parentheses for every map. */
  lemma {:induction false} MapContentToStringBalanced(keyType: string, valueType: string, entries: seq<(string, string)>)
    requires ParenFree(keyType) && ParenFree(valueType) && EntriesParenFree(entries)
    ensures var o := MapContentToString(keyType, valueType, entries);
      Occurrences(o, '(') == Occurrences(o, ')')
  {
    var p := Pairs(entries);
    PairsParens(entries);
    if |entries| > 0 {
      PairsLength(entries);
      var body := p[..|p| - 2];
      assert p == body + ", " by {
        assert p[|p| - 2..] == ", ";
      }
      OccursAppend(body, ", ", '(');
      OccursAppend(body, ", ", ')');
      LiteralParens();
      MapParens(keyType, valueType, body);
    } else {
      MapParens(keyType, valueType, p);
    }
  }

  /** One entry (1, 2) of an `int`-to-`int` map prints as
      "Map<System.Int32, System.Int32>((1, 2)". */
  lemma MapContentToStringAsWrittenExample()
    ensures MapContentToStringAsWritten("System.Int32", "System.Int32", [("1", "2")])
         == "Map<System.Int32, System.Int32>((1, 2)"
  {
    assert Pairs([("1", "2")]) == "(1, 2), ";
  }

  /** `Rad`: degrees times pi/180; `pi` is `MathF.PI`. */
  function Rad(degrees: real, pi: real): real
    requires pi > 0.0
  {
    degrees * (1.0 / 180.0 * pi)
  }

  /** `Deg`: radians times 180/pi. */
  function Deg(radians: real, pi: real): real
    requires pi > 0.0
  {
    radians * (1.0 / pi * 180.0)
  }

  /** Over exact reals `Rad` and `Deg` are inverse to each other. */
  lemma DegRad(x: real, pi: real)
    requires pi > 0.0
    ensures Deg(Rad(x, pi), pi) == x
    ensures Rad(Deg(x, pi), pi) == x
  {
    var c := 1.0 / 180.0 * pi;
    var d := 1.0 / pi * 180.0;
    assert c * d == 1.0;
    assert x * c * d == x * (c * d);
    assert x * d * c == x * (d * c);
  }

  /** `to_chunk_pos` on one coordinate: `(int)x >> 4`, i.e. truncation toward
      zero followed by an arithmetic shift, which rounds toward minus
      infinity. A chunk holds the 16 integer coordinates whose truncation
      starts at 16 times its index. */
  function ChunkCoord(x: real): (c: int)
    ensures 16 * c <= Maths.Trunc(x) < 16 * c + 16
  {
    Maths.Trunc(x) / 16
  }

  /** `ChunkCoord` is the unique chunk index holding the truncated
      coordinate. */
  lemma ChunkCoordUnique(x: real, c: int)
    ensures ChunkCoord(x) == c <==> 16 * c <= Maths.Trunc(x) < 16 * c + 16
  {
  }

  /** Truncation first: a coordinate just below zero lands in chunk 0, not
      chunk -1 as flooring would give. */
  lemma ChunkCoordNearZero()
    ensures ChunkCoord(-0.5) == 0
    ensures ChunkCoord(-1.0) == -1
    ensures ChunkCoord(-16.5) == -1
  {
  }

  /** `to_chunk_pos(Vector2)`: X and Y. */
  function ChunkPos2(x: real, y: real): (p: (int, int))
    ensures p == (ChunkCoord(x), ChunkCoord(y))
  {
    (Maths.Trunc(x) / 16, Maths.Trunc(y) / 16)
  }

  /** `to_chunk_pos(Vector3)`: X and Z; the height is ignored. */
  function ChunkPos3(v: Maths.V3): (p: (int, int))
    ensures p == ChunkPos2(v.x, v.z)
  {
    (Maths.Trunc(v.x) / 16, Maths.Trunc(v.z) / 16)
  }
}
