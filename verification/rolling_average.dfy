/** `RollingAvg` (New/Shared/RollingAverage.cs): the mean of the most
    recent `size` samples, kept with a running sum. Doubles are exact
    reals here. */
module RollingAverages {
  import opened Wrappers

  /** The window size `_size`, the queue `Values` (oldest first) and the
      running sum `_sum`. */
  datatype RollingAvg = RollingAvg(size: int, values: seq<real>, sum: real)

  /** The exact sum of a sequence. */
  function Sum(xs: seq<real>): real
    decreases |xs|
  {
    if |xs| == 0 then 0.0 else Sum(xs[..|xs| - 1]) + xs[|xs| - 1]
  }

  /** The window can hold `size` samples; a non-positive size holds none. */
  function Capacity(a: RollingAvg): nat {
    if a.size > 0 then a.size else 0
  }

  /** What every rolling average keeps: no more samples than the window
      holds, and the sum of exactly those samples. */
  predicate Valid(a: RollingAvg) {
    |a.values| <= Capacity(a) && a.sum == Sum(a.values)
  }

  /** `new RollingAvg(size)`. */
  function NewAvg(size: int): (a: RollingAvg)
    ensures Valid(a) && a.values == [] && a.size == size
  {
    RollingAvg(size, [], 0.0)
  }

  /** Dropping the oldest sample takes it off the sum. */
  lemma {:induction false} SumDropFirst(xs: seq<real>)
    requires |xs| > 0
    ensures Sum(xs) == xs[0] + Sum(xs[1..])
    decreases |xs|
  {
    if |xs| > 1 {
      var n := |xs| - 1;
      SumDropFirst(xs[..n]);
      assert xs[..n][1..] == xs[1..][..n - 1];
      assert xs[..n][0] == xs[0];
    }
  }

  /** `Add(value)`: enqueue and add to the sum, then, if the queue now holds
      more than `size` samples, dequeue the oldest and subtract it. */
  function Add(a: RollingAvg, value: real): (r: RollingAvg)
    ensures r.size == a.size
    ensures Valid(a) ==> Valid(r)
    ensures |a.values| < a.size ==> r.values == a.values + [value]
    ensures |a.values| >= a.size ==> r.values == (a.values + [value])[1..]
  {
    var q := a.values + [value];
    var s := a.sum + value;
    assert q[..|q| - 1] == a.values;
    if |q| <= a.size then RollingAvg(a.size, q, s)
    else
      SumDropFirst(q);
      RollingAvg(a.size, q[1..], s - q[0])
  }

  /** Adding the samples `xs` one by one. */
  function AddAll(a: RollingAvg, xs: seq<real>): RollingAvg
    decreases |xs|
  {
    if |xs| == 0 then a else Add(AddAll(a, xs[..|xs| - 1]), xs[|xs| - 1])
  }

  function MinNat(a: nat, b: nat): nat {
    if a <= b then a else b
  }

  /** Every state reached by adding samples is valid. */
  lemma {:induction false} AddAllValid(a: RollingAvg, xs: seq<real>)
    requires Valid(a)
    ensures Valid(AddAll(a, xs)) && AddAll(a, xs).size == a.size
    decreases |xs|
  {
    if |xs| > 0 {
      AddAllValid(a, xs[..|xs| - 1]);
    }
  }

  /** The most recent `min(|xs|, c)` of the samples `xs`, oldest first. */
  function Latest(xs: seq<real>, c: nat): (w: seq<real>)
    ensures |w| == MinNat(|xs|, c)
  {
    xs[|xs| - MinNat(|xs|, c)..]
  }

  /** After the samples `xs`, a fresh rolling average holds exactly the most
      recent `min(|xs|, size)` of them, in the order they were added (and,
      by `AddAllValid`, their sum). */
  lemma {:induction false} AddAllKeepsLatest(size: int, xs: seq<real>)
    ensures AddAll(NewAvg(size), xs).values == Latest(xs, Capacity(NewAvg(size)))
    decreases |xs|
  {
    if |xs| > 0 {
      var n := |xs| - 1;
      var c := Capacity(NewAvg(size));
      var p := AddAll(NewAvg(size), xs[..n]);
      assert AddAll(NewAvg(size), xs) == Add(p, xs[n]);
      AddAllKeepsLatest(size, xs[..n]);
      AddAllValid(NewAvg(size), xs[..n]);
      WindowStep(xs, c);
    }
  }

  /** The latest `c` samples of `xs`, from the latest `c` of all but its
      last sample. */
  lemma WindowStep(xs: seq<real>, c: nat)
    requires |xs| > 0
    ensures var vs := Latest(xs[..|xs| - 1], c);
      && (|vs| < c ==> vs + [xs[|xs| - 1]] == Latest(xs, c))
      && (|vs| == c ==> (vs + [xs[|xs| - 1]])[1..] == Latest(xs, c))
  {
    var n := |xs| - 1;
    assert Latest(xs[..n], c) == xs[n - MinNat(n, c)..n];
  }

  /** `Average`: the sum over the number of samples held; with none held
      the division is 0/0, which is not a number (`None`). */
  function Average(a: RollingAvg): (r: Option<real>)
    ensures r.Some? <==> |a.values| > 0
    ensures Valid(a) && r.Some? ==> r.value * |a.values| as real == Sum(a.values)
  {
    if |a.values| == 0 then None else Some(a.sum / |a.values| as real)
  }
}
