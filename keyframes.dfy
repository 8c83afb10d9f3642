/** Keyframe sampling (Model::InterpolateValues) and the playback clock of
    Model::UpdateAnimation.

    A clock reading is a float that is either a number or NaN: `fmodf` by a
    zero duration gives NaN, and every comparison with NaN is false, so the
    clock then stays NaN and the sampler falls through to its last value. */
module Keyframes {
  import opened Transforms

  datatype Time = Finite(seconds: real) | NaN

  /** `now < x` as a float comparison (false when `now` is NaN). */
  predicate Before(now: Time, x: real) {
    now.Finite? && now.seconds < x
  }

  /** What InterpolateValues reads is there: at least one keyframe time, a value for
      every time, and, with two or more keyframes, a non-zero first time step (the only
      divisor the search can reach without a keyframe time below it). */
  predicate Samplable(times: seq<real>, values: seq<Vec4>) {
    && |times| >= 1
    && |values| >= |times|
    && (|times| >= 2 ==> times[0] != times[1])
  }

  /** The sampler: the single value of a one-keyframe track, else the search from the first segment. */
  function Sample(times: seq<real>, values: seq<Vec4>, now: Time): Vec4
    requires Samplable(times, values)
  {
    if |times| == 1 then values[0] else SampleFrom(times, values, now, 0)
  }

  /** The search for the first segment `i` with `now < times[i + 1]`, starting at segment `i`
      (reached only when `now` is not before `times[i]`); past the last segment it yields the
      last value. */
  function SampleFrom(times: seq<real>, values: seq<Vec4>, now: Time, i: nat): Vec4
    requires Samplable(times, values) && |times| >= 2 && i <= |times| - 1
    requires i == 0 || !Before(now, times[i])
    decreases |times| - i
  {
    if i == |times| - 1 then values[|values| - 1]
    else if Before(now, times[i + 1]) then
      Mix(values[i], values[i + 1], (now.seconds - times[i]) / (times[i + 1] - times[i]))
    else SampleFrom(times, values, now, i + 1)
  }

  /** Model::InterpolateValues: a linear scan over the keyframe times with an early return. */
  method InterpolateValues(times: seq<real>, values: seq<Vec4>, now: Time) returns (v: Vec4)
    requires Samplable(times, values)
    ensures v == Sample(times, values, now)
  {
    if |times| == 1 {
      return values[0];
    }
    var i := 0;
    while i < |times| - 1
      invariant 0 <= i <= |times| - 1
      invariant i == 0 || !Before(now, times[i])
      invariant SampleFrom(times, values, now, i) == Sample(times, values, now)
    {
      if Before(now, times[i + 1]) {
        var t := (now.seconds - times[i]) / (times[i + 1] - times[i]);
        return Mix(values[i], values[i + 1], t);
      }
      i := i + 1;
    }
    return values[|values| - 1];
  }

  /** `now` is not before any of the keyframe times 1..i, so no segment before `i` brackets it. */
  predicate PassedUpTo(times: seq<real>, now: Time, i: nat) {
    forall j :: 1 <= j <= i && j < |times| ==> !Before(now, times[j])
  }

  /** The search from segment 0 reaches segment `i` unchanged when `now` has passed
      every keyframe time before it. */
  lemma {:induction false} SkipPassed(times: seq<real>, values: seq<Vec4>, now: Time, i: nat)
    requires Samplable(times, values) && |times| >= 2 && i <= |times| - 1
    requires PassedUpTo(times, now, i)
    ensures SampleFrom(times, values, now, 0) == SampleFrom(times, values, now, i)
  {
    if i > 0 {
      SkipPassed(times, values, now, i - 1);
    }
  }

  /** InterpolateValues mixes the bracketing pair: for the first segment `i` whose end
      `times[i + 1]` lies after `now`, the result is the point a fraction
      `(now - times[i]) / (times[i + 1] - times[i])` of the way from `values[i]` to
      `values[i + 1]`, component by component (quaternions as well). With `i == 0`
      and `now < times[0]` the fraction is negative: the sampler extrapolates. */
  lemma SampleBracket(times: seq<real>, values: seq<Vec4>, now: Time, i: nat)
    requires Samplable(times, values) && |times| >= 2 && i < |times| - 1
    requires PassedUpTo(times, now, i) && Before(now, times[i + 1])
    ensures times[i + 1] - times[i] != 0.0
    ensures Sample(times, values, now)
         == Mix(values[i], values[i + 1], (now.seconds - times[i]) / (times[i + 1] - times[i]))
  {
    SkipPassed(times, values, now, i);
  }

  /** A one-keyframe track yields its value at any time; otherwise a time at or after
      every keyframe time past the first (and a NaN clock) yields the last value. */
  lemma SampleClamps(times: seq<real>, values: seq<Vec4>, now: Time)
    requires Samplable(times, values)
    ensures |times| == 1 ==> Sample(times, values, now) == values[0]
    ensures |times| >= 2 && PassedUpTo(times, now, |times| - 1) ==>
              Sample(times, values, now) == values[|values| - 1]
    ensures |times| >= 2 && now.NaN? ==> Sample(times, values, now) == values[|values| - 1]
  {
    if |times| >= 2 && PassedUpTo(times, now, |times| - 1) {
      SkipPassed(times, values, now, |times| - 1);
    }
    if |times| >= 2 && now.NaN? {
      SkipPassed(times, values, now, |times| - 1);
    }
  }

  predicate StrictlyIncreasing(times: seq<real>) {
    forall i, j :: 0 <= i < j < |times| ==> times[i] < times[j]
  }

  /** With strictly increasing times (as section 3.11 of the glTF 2.0 specification demands of a
      sampler's input) and one value per time, sampling exactly at a keyframe time yields that
      keyframe's value. */
  lemma SampleAtKeyframe(times: seq<real>, values: seq<Vec4>, k: nat)
    requires Samplable(times, values) && |values| == |times| && StrictlyIncreasing(times)
    requires k < |times|
    ensures Sample(times, values, Finite(times[k])) == values[k]
  {
    var now := Finite(times[k]);
    if |times| >= 2 {
      if k < |times| - 1 {
        SampleBracket(times, values, now, k);
        var gap := times[k + 1] - times[k];
        assert now.seconds - times[k] == 0.0;
        assert 0.0 / gap == 0.0;
        var t := (now.seconds - times[k]) / gap;
        var r := Mix(values[k], values[k + 1], t);
        assert r.x == values[k].x && r.y == values[k].y && r.z == values[k].z && r.w == values[k].w;
      } else {
        SampleClamps(times, values, now);
      }
    }
  }

  /** C's fmodf for the operands it is reached with here (a positive dividend and a
      non-negative divisor): the remainder of truncated division, NaN for a zero divisor. */
  function Fmod(x: real, d: real): Time
    requires x >= 0.0 && d >= 0.0
  {
    if d == 0.0 then NaN else Finite(x - d * ((x / d).Floor as real))
  }

  /** One tick of the playback clock: add `dt`, and wrap with fmodf only when the sum is
      strictly greater than the duration. */
  function Advance(clock: Time, dt: real, duration: real): Time
    requires duration >= 0.0
  {
    match clock
    case NaN => NaN
    case Finite(t) => if t + dt > duration then Fmod(t + dt, duration) else Finite(t + dt)
  }

  lemma FloorBounds(x: real, d: real)
    requires x >= 0.0 && d > 0.0
    ensures 0.0 <= x - d * ((x / d).Floor as real) < d
  {
    var q := x / d;
    var f := q.Floor as real;
    assert f <= q < f + 1.0;
    ScaleBetween(x, d, q, f);
  }

  lemma ScaleBetween(x: real, d: real, q: real, f: real)
    requires d > 0.0 && x == d * q && f <= q < f + 1.0
    ensures 0.0 <= x - d * f < d
  {
    ScaleBelow(x, d, q, f);
    ScaleAbove(x, d, q, f);
  }

  lemma ScaleBelow(x: real, d: real, q: real, f: real)
    requires d > 0.0 && x == d * q && q < f + 1.0
    ensures x - d * f < d
  {
    var e := f + 1.0 - q;
    assert d * e > 0.0;
    assert d * e == d * f + d - d * q;
  }

  lemma ScaleAbove(x: real, d: real, q: real, f: real)
    requires d > 0.0 && x == d * q && f <= q
    ensures 0.0 <= x - d * f
  {
    var e := q - f;
    assert d * e >= 0.0;
    assert d * e == d * q - d * f;
  }

  /** The clock after a tick. A tick of zero leaves a clock that is not past the duration
      (or NaN) unchanged; with a positive duration a non-negative sum ends in [0, duration],
      and a sum past the duration wraps to a whole number of durations less; a zero duration
      turns any positive sum into NaN, and NaN stays NaN. */
  lemma AdvanceClock(clock: Time, dt: real, duration: real)
    requires duration >= 0.0
    ensures (clock.NaN? || clock.seconds <= duration) ==> Advance(clock, 0.0, duration) == clock
    ensures duration > 0.0 && clock.Finite? && clock.seconds + dt >= 0.0 ==>
              var r := Advance(clock, dt, duration);
              r.Finite? && 0.0 <= r.seconds <= duration
    ensures duration > 0.0 && clock.Finite? && clock.seconds + dt > duration ==>
              var r := Advance(clock, dt, duration);
              r.Finite? && r.seconds < duration &&
              r.seconds == clock.seconds + dt - duration * ((clock.seconds + dt) / duration).Floor as real
    ensures duration == 0.0 && clock.Finite? && clock.seconds + dt > 0.0 ==>
              Advance(clock, dt, duration) == NaN
    ensures clock.NaN? ==> Advance(clock, dt, duration) == NaN
  {
    if duration > 0.0 && clock.Finite? && clock.seconds + dt > duration {
      FloorBounds(clock.seconds + dt, duration);
    }
  }
}
