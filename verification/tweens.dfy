/** Tweens (New/Shared/Tweens/): values that move over time. Two clocks
    are read, both in milliseconds: `Environment.TickCount`, counted from
    system start, is the parameter `now`, and `Fall.Now`, counted from the
    game's start, is the parameter `fallNow`. The
    easing curve `Animations.Animation` is the parameter `animation`
    (duration, elapsed time) and OpenTK's `MathHelper.Lerp` is the
    parameter `lerp`. Floats are exact reals; the one float result that is
    not a number, a remainder by a zero duration, is `None`. */
module Tweens {
  import opened Wrappers
  import opened Maths

  /** C#'s `%` on floats: the remainder of truncated division, with the
      sign of the dividend. */
  function FMod(a: real, b: real): real
    requires b != 0.0
  {
    a - b * Trunc(a / b) as real
  }

  /** On a non-negative dividend and a positive divisor the remainder lies
      in [0, b) and repeats with period `b`. */
  lemma FModRange(a: real, b: real)
    requires a >= 0.0 && b > 0.0
    ensures 0.0 <= FMod(a, b) < b
    ensures FMod(a + b, b) == FMod(a, b)
  {
    var x := a / b;
    QuotientNonNegative(a, b);
    var q := Trunc(x);
    var f := x - q as real;
    assert 0.0 <= f < 1.0;
    assert FMod(a, b) == b * f by {
      assert x * b == a;
    }
    MulLt(b, f, 1.0);
    MulLe(b, 0.0, f);
    QuotientShift(a, b);
    assert Trunc(x + 1.0) == q + 1;
  }

  lemma QuotientNonNegative(a: real, b: real)
    requires a >= 0.0 && b > 0.0
    ensures a / b >= 0.0 && (a / b) * b == a
  {
    var x := a / b;
    if x < 0.0 {
      MulLt(b, x, 0.0);
    }
  }

  /** Adding the divisor to the dividend adds one to the quotient. */
  lemma QuotientShift(a: real, b: real)
    requires b > 0.0
    ensures (a + b) / b == a / b + 1.0
  {
    var x := a / b;
    var y := (a + b) / b;
    assert x * b == a && y * b == a + b;
    assert (y - (x + 1.0)) * b == 0.0;
    if y - (x + 1.0) > 0.0 {
      MulLt(b, 0.0, y - (x + 1.0));
    } else if y - (x + 1.0) < 0.0 {
      MulLt(b, y - (x + 1.0), 0.0);
    }
  }

  /** `Tween`: an animation started at `lastActivation`, lasting
      `duration`, repeating if `infinite`. */
  datatype Tween = Tween(animation: (real, real) -> real, lastActivation: real, duration: real, infinite: bool)

  /** `new Tween(animation, duration, repeating)` at time `now`. */
  function NewTween(animation: (real, real) -> real, duration: real, repeating: bool, now: int): (t: Tween)
    ensures t.lastActivation == now as real && t.duration == duration && t.infinite == repeating
  {
    Tween(animation, now as real, duration, repeating)
  }

  /** The animation's value at `elapsed` time after activation: a repeating
      tween feeds it the elapsed time modulo the duration. */
  function Curve(t: Tween, elapsed: real): Option<real> {
    if !t.infinite then Some(t.animation(t.duration, elapsed))
    else if t.duration == 0.0 then None
    else Some(t.animation(t.duration, FMod(elapsed, t.duration)))
  }

  function Clamp01(o: Option<real>): (r: Option<real>)
    ensures r.Some? <==> o.Some?
    ensures r.Some? ==> 0.0 <= r.value <= 1.0 && (0.0 <= o.value <= 1.0 ==> r.value == o.value)
  {
    if o.None? then None else Some(ClampReal(o.value, 0.0, 1.0))
  }

  /** `OutputAt(time)`: 0 before activation; 1 after the end of a tween
      that does not repeat; otherwise the clamped animation value. */
  function TweenOutputAt(t: Tween, time: real): (r: Option<real>)
    ensures r.Some? ==> 0.0 <= r.value <= 1.0
    ensures time < t.lastActivation ==> r == Some(0.0)
    ensures time >= t.lastActivation && time > t.lastActivation + t.duration && !t.infinite ==> r == Some(1.0)
    ensures r.None? <==> time >= t.lastActivation && t.infinite && t.duration == 0.0
  {
    if time < t.lastActivation then Some(0.0)
    else if time > t.lastActivation + t.duration && !t.infinite then Some(1.0)
    else Clamp01(Curve(t, time - t.lastActivation))
  }

  /** `Output()` at clock `now`: the clamped animation value, with no
      special case before activation or after the end. */
  function TweenOutput(t: Tween, now: int): (r: Option<real>)
    ensures r.Some? ==> 0.0 <= r.value <= 1.0
  {
    Clamp01(Curve(t, now as real - t.lastActivation))
  }

  /** `Done()` at clock `now`: more than `duration` has elapsed. */
  predicate TweenDone(t: Tween, now: int) {
    now as real - t.lastActivation > t.duration
  }

  /** While a tween runs, `Output` and `OutputAt` agree; a finished tween
      of non-negative duration that does not repeat is at 1. */
  lemma TweenOutputAgrees(t: Tween, now: int)
    ensures now as real >= t.lastActivation && (t.infinite || now as real <= t.lastActivation + t.duration)
      ==> TweenOutput(t, now) == TweenOutputAt(t, now as real)
    ensures !t.infinite && t.duration >= 0.0 && TweenDone(t, now) ==> TweenOutputAt(t, now as real) == Some(1.0)
  {
  }

  /** A repeating tween of positive duration repeats: its output one
      duration later is the same. */
  lemma TweenRepeats(t: Tween, time: real)
    requires t.infinite && t.duration > 0.0 && time >= t.lastActivation
    ensures TweenOutputAt(t, time + t.duration) == TweenOutputAt(t, time)
  {
    FModRange(time - t.lastActivation, t.duration);
    assert time + t.duration - t.lastActivation == (time - t.lastActivation) + t.duration;
  }

  /** `FromToTween`: a value moving from `from` to `to`. */
  datatype FromToTween = FromToTween(animation: (real, real) -> real, lastActivation: real, from: real, to: real, duration: real)

  /** `new FromToTween(animation, from, to, duration)` at time `now`. */
  function NewFromTo(animation: (real, real) -> real, from: real, to: real, duration: real, now: int): (t: FromToTween)
    ensures t.lastActivation == now as real && t.from == from && t.to == to && t.duration == duration
  {
    FromToTween(animation, now as real, from, to, duration)
  }

  /** `OutputAt(time)`: `From` before activation, `To` after the end, and
      in between the interpolation at the animation's value. */
  function FromToOutputAt(lerp: (real, real, real) -> real, t: FromToTween, time: real): (r: real)
    ensures time < t.lastActivation ==> r == t.from
    ensures time >= t.lastActivation && time > t.lastActivation + t.duration ==> r == t.to
    ensures t.lastActivation <= time <= t.lastActivation + t.duration ==>
      r == lerp(t.from, t.to, t.animation(t.duration, time - t.lastActivation))
  {
    if time < t.lastActivation then t.from
    else if time > t.lastActivation + t.duration then t.to
    else lerp(t.from, t.to, t.animation(t.duration, time - t.lastActivation))
  }

  /** `Output()` at clock `now`. */
  function FromToOutput(lerp: (real, real, real) -> real, t: FromToTween, now: int): real {
    var time := now as real;
    if time < t.lastActivation then t.from
    else if time > t.lastActivation + t.duration then t.to
    else lerp(t.from, t.to, t.animation(t.duration, time - t.lastActivation))
  }

  /** `Done()` at clock `now`. */
  predicate FromToDone(t: FromToTween, now: int) {
    now as real - t.lastActivation > t.duration
  }

  /** `Output` is `OutputAt` the current clock, and once done the tween
      rests at `To`; with a non-negative duration it is done exactly when
      the clock has passed the end. */
  lemma FromToSettles(lerp: (real, real, real) -> real, t: FromToTween, now: int)
    ensures FromToOutput(lerp, t, now) == FromToOutputAt(lerp, t, now as real)
    ensures FromToDone(t, now) && t.duration >= 0.0 ==> FromToOutputAt(lerp, t, now as real) == t.to
    ensures FromToDone(t, now) <==> now as real > t.lastActivation + t.duration
  {
  }

  /** `StaticTween`: a constant `output` for `duration`. */
  datatype StaticTween = StaticTween(output: real, duration: real, lastActivation: real)

  /** `new StaticTween(output, duration)`, activated at `now`. */
  function NewStatic(output: real, duration: real, now: int): (t: StaticTween)
    ensures t.output == output && t.duration == duration && t.lastActivation == now as real
  {
    StaticTween(output, duration, now as real)
  }

  function StaticOutput(t: StaticTween): real {
    t.output
  }

  function StaticOutputAt(t: StaticTween, time: real): real {
    t.output
  }

  /** `Done()` as written: it subtracts the activation time, a reading of
      `Environment.TickCount`, from `Fall.Now`, a reading of the other
      clock. */
  predicate StaticDone(t: StaticTween, fallNow: real) {
    fallNow - t.lastActivation > t.duration
  }

  /** `Fall.Now` at tick count `now`, when the game started at tick count
      `start`. */
  function FallNow(now: int, start: int): (r: real)
    ensures r + start as real == now as real
  {
    (now - start) as real
  }

  /** A static tween's output is the constructed value at every time. As
      written, it is done once `Fall.Now` exceeds the tick count it was
      activated at by more than its duration. */
  lemma StaticConstant(output: real, duration: real, activated: int, time: real, fallNow: real)
    ensures var t := NewStatic(output, duration, activated);
      && StaticOutput(t) == output && StaticOutputAt(t, time) == output
      && (StaticDone(t, fallNow) <==> fallNow > activated as real + duration)
  {
  }

  /** As written, `Done()` lags by the tick count at which the game
      started: the tween is done only once the tick count has passed the
      end by `start` more milliseconds. */
  lemma StaticDoneLags(t: StaticTween, now: int, start: int)
    ensures StaticDone(t, FallNow(now, start)) <==> StaticDoneIntended(t, now - start)
    ensures start > 0 && StaticDone(t, FallNow(now, start)) ==> StaticDoneIntended(t, now)
  {
  }

  /** A game started an hour after system start: a 500 ms static tween
      activated 5 s into the game is due 5 s later, but as written it is
      not done. */
  lemma StaticDoneAsWrittenLate()
    ensures var t := NewStatic(1.0, 500.0, 3605000);
      StaticDoneIntended(t, 3610000) && !StaticDone(t, FallNow(3610000, 3600000))
  {
  }

  /** `Done()` as intended: the activation time and the current time are
      read from the same clock, `Environment.TickCount`, as the other two
      tweens do. */
  predicate StaticDoneIntended(t: StaticTween, now: int) {
    now as real - t.lastActivation > t.duration
  }

  /** The intended `Done()` of a static tween is the `Done()` of a tween or
      a from-to tween with the same activation time and duration, and it
      holds exactly once more than the duration has passed. */
  lemma StaticDoneAsTweens(t: StaticTween, animation: (real, real) -> real, infinite: bool, from: real, to: real, now: int)
    ensures StaticDoneIntended(t, now) == TweenDone(Tween(animation, t.lastActivation, t.duration, infinite), now)
    ensures StaticDoneIntended(t, now) == FromToDone(FromToTween(animation, t.lastActivation, from, to, t.duration), now)
    ensures StaticDoneIntended(t, now) <==> now as real > t.lastActivation + t.duration
  {
  }
}
