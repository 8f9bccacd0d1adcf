/** What a run of the fixed-step integrator records: the raw states after
    0, 1, ..., n steps of a one-step map (Trace), the clock (Time), the
    ground-crossing interpolation (Frac, Lerp), and the run predicate IsRun
    with the properties every run has. */
module Flight {
  import opened Physics
  import opened Arith

  /** The launch state: at the origin with the given velocity components. */
  function Launch(vx0: real, vy0: real): State
  {
    State(0.0, 0.0, vx0, vy0)
  }

  /** The states after 0, 1, ..., n applications of step to s0, before any
      ground correction. */
  function Trace(step: State -> State, s0: State, n: nat): (tr: seq<State>)
    ensures |tr| == n + 1 && tr[0] == s0
    ensures n > 0 ==> tr[n] == step(tr[n - 1])
  {
    if n == 0 then [s0]
    else
      var before := Trace(step, s0, n - 1);
      before + [step(before[n - 1])]
  }

  /** The step times Time(dt, 0), ..., Time(dt, n). */
  function Times(dt: real, n: nat): (ts: seq<real>)
    ensures |ts| == n + 1 && forall j {:trigger ts[j]} :: 0 <= j <= n ==> ts[j] == Time(dt, j)
  {
    seq(n + 1, j requires 0 <= j <= n => Time(dt, j))
  }

  /** A shorter trace is a prefix of a longer one. */
  lemma {:induction false} TracePrefix(step: State -> State, s0: State, m: nat, n: nat)
    requires m <= n
    ensures Trace(step, s0, n)[..m + 1] == Trace(step, s0, m)
  {
    if m < n {
      TracePrefix(step, s0, m, n - 1);
      assert Trace(step, s0, n)[..n] == Trace(step, s0, n - 1);
    }
  }

  /** The clock after n steps, advanced by repeated addition as the loop does. */
  function Time(dt: real, n: nat): real
  {
    if n == 0 then 0.0 else Time(dt, n - 1) + dt
  }

  lemma {:induction false} TimeIsProduct(dt: real, n: nat)
    ensures Time(dt, n) == n as real * dt
  {
    if n > 0 {
      TimeIsProduct(dt, n - 1);
    }
  }

  /** With a positive step the clock strictly increases. */
  lemma {:induction false} TimeIncreasing(dt: real, i: nat, j: nat)
    requires dt > 0.0 && i < j
    ensures Time(dt, i) < Time(dt, j)
  {
    if i < j - 1 {
      TimeIncreasing(dt, i, j - 1);
    }
  }

  /** Ceiling of a real number. */
  function Ceil(r: real): (c: int)
    ensures r <= c as real < r + 1.0
  {
    -((-r).Floor)
  }

  /** The most steps the loop can take: the smallest n with Time(dt, n) >= tMax,
      that is the ceiling of tMax / dt (or 0 when tMax <= 0). */
  function StepLimit(dt: real, tMax: real): (n: nat)
    requires dt > 0.0
    ensures Time(dt, n) >= tMax
    ensures n > 0 ==> Time(dt, n - 1) < tMax
  {
    if tMax <= 0.0 then 0 else CeilSteps(dt, tMax); Ceil(tMax / dt)
  }

  lemma CeilSteps(dt: real, tMax: real)
    requires dt > 0.0 && tMax > 0.0
    ensures Ceil(tMax / dt) >= 1
    ensures Time(dt, Ceil(tMax / dt)) >= tMax
    ensures Time(dt, Ceil(tMax / dt) - 1) < tMax
  {
    var c := Ceil(tMax / dt);
    TimeIsProduct(dt, c);
    TimeIsProduct(dt, c - 1);
    DivBounds(tMax, dt, c as real, (c - 1) as real);
  }

  /** A loop pass that starts before tMax is within the step limit. */
  lemma {:induction false} StepWithinLimit(dt: real, tMax: real, i: nat)
    requires dt > 0.0 && Time(dt, i) < tMax
    ensures i < StepLimit(dt, tMax)
  {
    var n := StepLimit(dt, tMax);
    if n < i {
      TimeIncreasing(dt, n, i);
    }
  }

  /** Linear interpolation a + f * (b - a): a at f = 0, b at f = 1. */
  function Lerp(a: real, b: real, f: real): real
  {
    a + f * (b - a)
  }

  /** For 0 <= f < 1 the interpolated value lies between the end points: it
      is a itself when f = 0 and never reaches b unless a == b. */
  lemma LerpBetween(a: real, b: real, f: real)
    requires 0.0 <= f < 1.0
    ensures f == 0.0 ==> Lerp(a, b, f) == a
    ensures a <= b ==> a <= Lerp(a, b, f) <= b && (a < b ==> Lerp(a, b, f) < b)
    ensures b <= a ==> b <= Lerp(a, b, f) <= a && (b < a ==> b < Lerp(a, b, f))
  {
    if a <= b {
      LerpRising(a, b, f);
    } else {
      LerpRising(-a, -b, f);
      LerpNegate(a, b, f);
    }
  }

  lemma LerpRising(a: real, b: real, f: real)
    requires 0.0 <= f < 1.0 && a <= b
    ensures a <= Lerp(a, b, f) <= b && (a < b ==> Lerp(a, b, f) < b)
  {
    var d := b - a;
    ShortOfEnd(f, d);
    assert Lerp(a, b, f) == a + f * d;
  }

  lemma LerpNegate(a: real, b: real, f: real)
    ensures Lerp(-a, -b, f) == -Lerp(a, b, f)
  {
    MulNegate(f, a, b);
  }

  /** Fraction of the step at which the height crosses zero, for a step that
      goes from a non-negative height to a negative one. */
  function Frac(yPrev: real, yNext: real): real
    requires 0.0 <= yPrev && yNext < 0.0
  {
    yPrev / (yPrev - yNext)
  }

  /** The fraction lies in [0, 1) and interpolating the heights with it
      gives exactly zero: the ground point is on the segment between the
      two samples. */
  lemma FracCrossing(yPrev: real, yNext: real)
    requires 0.0 <= yPrev && yNext < 0.0
    ensures 0.0 <= Frac(yPrev, yNext) < 1.0
    ensures Lerp(yPrev, yNext, Frac(yPrev, yNext)) == 0.0
  {
    var d := yPrev - yNext;
    var q := yPrev / d;
    assert q * d == yPrev;
    assert q >= 0.0 by {
      if q < 0.0 { MulStrict(-q, d); }
    }
    assert q < 1.0 by {
      if q >= 1.0 { MulNonNegative(q - 1.0, d); }
    }
    assert q * (yNext - yPrev) == -(q * d);
  }

  /** The run has hit the ground: its n-th raw state is below ground. */
  ghost predicate Landed(step: State -> State, vx0: real, vy0: real, n: nat)
  {
    n > 0 && Trace(step, Launch(vx0, vy0), n)[n].y < 0.0
  }

  /** A run of the loop that ended after n = |xs| - 1 passes: three lists
      of equal length with at least the initial sample, recording the
      samples described by RunSamples. */
  ghost predicate IsRun(step: State -> State, vx0: real, vy0: real, dt: real, tMax: real,
                        xs: seq<real>, ys: seq<real>, ts: seq<real>)
  {
    |xs| == |ys| == |ts| >= 1 && RunSamples(step, vx0, vy0, dt, tMax, xs, ys, ts)
  }

  /** The samples of a run with n = |xs| - 1 passes: they start at (0, 0, 0);
      every sample before the last is the raw state at time Time(dt, j),
      taken while airborne; each pass started before tMax; the last sample is
      the raw one when the run reached tMax in the air, and the interpolated
      ground point when the last pass fell below ground. */
  ghost predicate RunSamples(step: State -> State, vx0: real, vy0: real, dt: real, tMax: real,
                             xs: seq<real>, ys: seq<real>, ts: seq<real>)
    requires |xs| == |ys| == |ts| >= 1
  {
    xs[0] == 0.0 && ys[0] == 0.0 && ts[0] == 0.0 &&
    var n := |xs| - 1;
    var tr := Trace(step, Launch(vx0, vy0), n);
    (forall j :: 0 <= j < n ==> xs[j] == tr[j].x && ys[j] == tr[j].y) &&
    (forall j {:trigger ts[j]} :: 0 <= j < n ==> ts[j] == Time(dt, j)) &&
    (forall j :: 0 <= j < n ==> tr[j].y >= 0.0) &&
    (if n == 0 then tMax <= 0.0 else Time(dt, n - 1) < tMax) &&
    (n > 0 ==>
       if tr[n].y < 0.0 then
         var f := Frac(tr[n - 1].y, tr[n].y);
         xs[n] == Lerp(tr[n - 1].x, tr[n].x, f) && ys[n] == 0.0 &&
         ts[n] == Lerp(Time(dt, n - 1), Time(dt, n), f)
       else
         xs[n] == tr[n].x && ys[n] == tr[n].y && ts[n] == Time(dt, n) &&
         Time(dt, n) >= tMax)
  }


  /** Sample j of a run with n + 1 samples is a raw trace state: every
      sample but the last, and the last one too unless the run landed, in
      which case it is the interpolated ground point. */
  ghost predicate RawIndex(step: State -> State, vx0: real, vy0: real, n: nat, j: int)
  {
    0 <= j <= n && (j < n || !Landed(step, vx0, vy0, n))
  }

  /** Every raw sample of a run is the trace state at its clock value. */
  lemma RunRawSamples(step: State -> State, vx0: real, vy0: real, dt: real, tMax: real,
                      xs: seq<real>, ys: seq<real>, ts: seq<real>)
    requires IsRun(step, vx0, vy0, dt, tMax, xs, ys, ts)
    ensures forall j :: RawIndex(step, vx0, vy0, |xs| - 1, j) ==>
      var s := Trace(step, Launch(vx0, vy0), |xs| - 1)[j];
      xs[j] == s.x && ys[j] == s.y && ts[j] == Time(dt, j)
  {
    assert RunSamples(step, vx0, vy0, dt, tMax, xs, ys, ts);
  }

  /** A run takes at most StepLimit(dt, tMax) passes, the number of steps
      the clock needs to reach tMax. */
  lemma RunStepBound(step: State -> State, vx0: real, vy0: real, dt: real, tMax: real,
                     xs: seq<real>, ys: seq<real>, ts: seq<real>)
    requires dt > 0.0 && IsRun(step, vx0, vy0, dt, tMax, xs, ys, ts)
    ensures |xs| <= StepLimit(dt, tMax) + 1
  {
    var n := |xs| - 1;
    assert RunSamples(step, vx0, vy0, dt, tMax, xs, ys, ts);
    if n > 0 {
      StepWithinLimit(dt, tMax, n - 1);
    }
  }

  /** No recorded height is negative: raw samples are taken while airborne,
      and a run that fell below ground ends on the ground. */
  lemma RunHeightsNonNegative(step: State -> State, vx0: real, vy0: real, dt: real, tMax: real,
                              xs: seq<real>, ys: seq<real>, ts: seq<real>)
    requires IsRun(step, vx0, vy0, dt, tMax, xs, ys, ts)
    ensures forall j :: 0 <= j < |ys| ==> ys[j] >= 0.0
    ensures Landed(step, vx0, vy0, |ys| - 1) ==> ys[|ys| - 1] == 0.0
  {
    var n := |ys| - 1;
    var tr := Trace(step, Launch(vx0, vy0), n);
    assert RunSamples(step, vx0, vy0, dt, tMax, xs, ys, ts);
    forall j | 0 <= j < n
      ensures ys[j] >= 0.0
    {
      assert ys[j] == tr[j].y;
    }
  }

  /** The last recorded time lies in [Time(dt, n - 1), Time(dt, n)]: it is
      the clock itself, or a time interpolated within the last step. */
  lemma RunLastTime(step: State -> State, vx0: real, vy0: real, dt: real, tMax: real,
                    xs: seq<real>, ys: seq<real>, ts: seq<real>)
    requires dt > 0.0 && IsRun(step, vx0, vy0, dt, tMax, xs, ys, ts) && |ts| > 1
    ensures Time(dt, |ts| - 2) <= ts[|ts| - 1] <= Time(dt, |ts| - 1)
    ensures Landed(step, vx0, vy0, |ts| - 1) ==> ts[|ts| - 1] < Time(dt, |ts| - 1)
  {
    var n := |ts| - 1;
    var tr := Trace(step, Launch(vx0, vy0), n);
    assert RunSamples(step, vx0, vy0, dt, tMax, xs, ys, ts);
    TimeIncreasing(dt, n - 1, n);
    if tr[n].y < 0.0 {
      FracCrossing(tr[n - 1].y, tr[n].y);
      LerpBetween(Time(dt, n - 1), Time(dt, n), Frac(tr[n - 1].y, tr[n].y));
    }
  }

  /** Recorded times strictly increase over the raw samples and never
      decrease overall (the ground point may coincide with the sample before
      it when that sample is exactly on the ground). */
  lemma RunTimesOrdered(step: State -> State, vx0: real, vy0: real, dt: real, tMax: real,
                        xs: seq<real>, ys: seq<real>, ts: seq<real>)
    requires dt > 0.0 && IsRun(step, vx0, vy0, dt, tMax, xs, ys, ts)
    ensures forall i, j :: 0 <= i < j < |ts| - 1 ==> ts[i] < ts[j]
    ensures forall i, j :: 0 <= i < j < |ts| ==> ts[i] <= ts[j]
  {
    var n := |ts| - 1;
    assert RunSamples(step, vx0, vy0, dt, tMax, xs, ys, ts);
    if n > 0 {
      RunLastTime(step, vx0, vy0, dt, tMax, xs, ys, ts);
    }
    forall i, j | 0 <= i < j < |ts|
      ensures ts[i] <= ts[j] && (j < n ==> ts[i] < ts[j])
    {
      if j < n {
        TimeIncreasing(dt, i, j);
      } else if i < n - 1 {
        TimeIncreasing(dt, i, n - 1);
      }
    }
  }

  /** The last sample of a run that fell below ground is the ground point:
      height zero, x between the last two raw positions, and time within one
      step after the previous sample. A run that did not land ends at the
      first clock value at or past tMax. */
  lemma RunEnd(step: State -> State, vx0: real, vy0: real, dt: real, tMax: real,
               xs: seq<real>, ys: seq<real>, ts: seq<real>)
    requires dt > 0.0 && IsRun(step, vx0, vy0, dt, tMax, xs, ys, ts)
    ensures var n := |xs| - 1;
      var tr := Trace(step, Launch(vx0, vy0), n);
      Landed(step, vx0, vy0, n) ==>
        ys[n] == 0.0 && ys[n - 1] >= 0.0 > tr[n].y &&
        (xs[n - 1] <= tr[n].x ==> xs[n - 1] <= xs[n] <= tr[n].x) &&
        (tr[n].x <= xs[n - 1] ==> tr[n].x <= xs[n] <= xs[n - 1]) &&
        ts[n - 1] <= ts[n] < ts[n - 1] + dt
    ensures !Landed(step, vx0, vy0, |xs| - 1) ==>
      ts[|ts| - 1] >= tMax && (|ts| > 1 ==> ts[|ts| - 2] < tMax)
  {
    var n := |xs| - 1;
    var tr := Trace(step, Launch(vx0, vy0), n);
    assert RunSamples(step, vx0, vy0, dt, tMax, xs, ys, ts);
    if n > 0 {
      RunLastTime(step, vx0, vy0, dt, tMax, xs, ys, ts);
      if tr[n].y < 0.0 {
        var f := Frac(tr[n - 1].y, tr[n].y);
        FracCrossing(tr[n - 1].y, tr[n].y);
        LerpBetween(tr[n - 1].x, tr[n].x, f);
      }
    }
  }

  /** The clock is never negative for a non-negative step. */
  lemma {:induction false} TimeNonNegative(dt: real, n: nat)
    requires dt >= 0.0
    ensures Time(dt, n) >= 0.0
  {
    if n > 0 {
      TimeNonNegative(dt, n - 1);
    }
  }

  /** Two runs for the same inputs are identical: IsRun determines the
      samples completely, so the loop is a function of its inputs. */
  lemma {:induction false} RunDeterministic(step: State -> State, vx0: real, vy0: real, dt: real, tMax: real,
                                            xs: seq<real>, ys: seq<real>, ts: seq<real>,
                                            xs': seq<real>, ys': seq<real>, ts': seq<real>)
    requires dt > 0.0
    requires IsRun(step, vx0, vy0, dt, tMax, xs, ys, ts)
    requires IsRun(step, vx0, vy0, dt, tMax, xs', ys', ts')
    ensures xs == xs' && ys == ys' && ts == ts'
  {
    RunLengthUnique(step, vx0, vy0, dt, tMax, xs, ys, ts, xs', ys', ts');
    RunLengthUnique(step, vx0, vy0, dt, tMax, xs', ys', ts', xs, ys, ts);
    assert RunSamples(step, vx0, vy0, dt, tMax, xs, ys, ts);
    assert RunSamples(step, vx0, vy0, dt, tMax, xs', ys', ts');
    var n := |xs| - 1;
    forall j | 0 <= j <= n
      ensures xs[j] == xs'[j] && ys[j] == ys'[j] && ts[j] == ts'[j]
    {
    }
  }

  /** A run cannot stop before another run for the same inputs: every pass
      of the longer run started before tMax and stayed airborne, so the
      shorter one had no reason to stop. */
  lemma {:induction false} RunLengthUnique(step: State -> State, vx0: real, vy0: real, dt: real, tMax: real,
                                           xs: seq<real>, ys: seq<real>, ts: seq<real>,
                                           xs': seq<real>, ys': seq<real>, ts': seq<real>)
    requires dt > 0.0
    requires IsRun(step, vx0, vy0, dt, tMax, xs, ys, ts)
    requires IsRun(step, vx0, vy0, dt, tMax, xs', ys', ts')
    ensures |xs| <= |xs'|
  {
    var n, n' := |xs| - 1, |xs'| - 1;
    if n' < n {
      assert RunSamples(step, vx0, vy0, dt, tMax, xs, ys, ts);
      assert RunSamples(step, vx0, vy0, dt, tMax, xs', ys', ts');
      TimeNonNegative(dt, n');
      if n' < n - 1 {
        TimeIncreasing(dt, n', n - 1);
      }
      TracePrefix(step, Launch(vx0, vy0), n', n);
      assert false;
    }
  }
}
