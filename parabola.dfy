/** The link between the integrator and the drag-free closed form
    trajectory_no_drag: without drag and spin the Runge-Kutta step is exact,
    so every raw sample of a run lies on the parabola x = vx0 t,
    y = vy0 t - g t^2 / 2 at its recorded time. */
module Parabola {
  import opened Physics
  import opened Flight

  /** The state of drag-free motion at time t. */
  function FreeFlightState(g: real, vx0: real, vy0: real, t: real): State
  {
    State(vx0 * t, vy0 * t - g * t * t / 2.0, vx0, vy0 - g * t)
  }

  /** Advancing the drag-free state at t0 by dt along uniformly accelerated
      motion gives the drag-free state at t0 + dt. */
  lemma ParabolaAdvance(g: real, vx0: real, vy0: real, t0: real, dt: real)
    ensures FallStep(g, dt, FreeFlightState(g, vx0, vy0, t0)) == FreeFlightState(g, vx0, vy0, t0 + dt)
  {
    var t := t0 + dt;
    assert vx0 * t0 + vx0 * dt == vx0 * t;
    assert g * t * t == g * t0 * t0 + 2.0 * g * t0 * dt + g * dt * dt;
    assert (vy0 - g * t0) * dt == vy0 * dt - g * t0 * dt;
  }

  /** For a one-step map that advances exactly under gravity, the n-th state
      of the trace from the launch is the drag-free state at Time(dt, n). */
  lemma {:induction false} FallTrace(step: State -> State, g: real, dt: real, vx0: real, vy0: real, n: nat)
    requires forall s :: step(s) == FallStep(g, dt, s)
    ensures Trace(step, Launch(vx0, vy0), n)[n] == FreeFlightState(g, vx0, vy0, Time(dt, n))
  {
    if n > 0 {
      FallTrace(step, g, dt, vx0, vy0, n - 1);
      ParabolaAdvance(g, vx0, vy0, Time(dt, n - 1), dt);
    }
  }

  /** For such a map every raw sample of a run lies on the drag-free
      trajectory evaluated at its recorded time: all samples but the last,
      and the last one too unless it is the interpolated ground point. */
  lemma RunOnParabola(step: State -> State, g: real, vx0: real, vy0: real, dt: real, tMax: real,
                      xs: seq<real>, ys: seq<real>, ts: seq<real>)
    requires forall s :: step(s) == FallStep(g, dt, s)
    requires IsRun(step, vx0, vy0, dt, tMax, xs, ys, ts)
    ensures forall j :: RawIndex(step, vx0, vy0, |xs| - 1, j) ==>
      xs[j] == vx0 * ts[j] && ys[j] == vy0 * ts[j] - g * ts[j] * ts[j] / 2.0
  {
    RunRawSamples(step, vx0, vy0, dt, tMax, xs, ys, ts);
    RawSamplesOnParabola(step, g, vx0, vy0, dt, xs, ys, ts);
  }

  /** Samples that are trace states of such a map at their clock values
      satisfy the drag-free formulas. */
  lemma RawSamplesOnParabola(step: State -> State, g: real, vx0: real, vy0: real, dt: real,
                             xs: seq<real>, ys: seq<real>, ts: seq<real>)
    requires forall s :: step(s) == FallStep(g, dt, s)
    requires |xs| == |ys| == |ts| >= 1
    requires forall j :: RawIndex(step, vx0, vy0, |xs| - 1, j) ==>
      var s := Trace(step, Launch(vx0, vy0), |xs| - 1)[j];
      xs[j] == s.x && ys[j] == s.y && ts[j] == Time(dt, j)
    ensures forall j :: RawIndex(step, vx0, vy0, |xs| - 1, j) ==>
      xs[j] == vx0 * ts[j] && ys[j] == vy0 * ts[j] - g * ts[j] * ts[j] / 2.0
  {
    forall j | RawIndex(step, vx0, vy0, |xs| - 1, j)
      ensures xs[j] == vx0 * ts[j] && ys[j] == vy0 * ts[j] - g * ts[j] * ts[j] / 2.0
    {
      FallTraceAt(step, g, dt, vx0, vy0, |xs| - 1, j);
    }
  }

  /** Every state of a longer trace under such a map is on the parabola too. */
  lemma FallTraceAt(step: State -> State, g: real, dt: real, vx0: real, vy0: real, n: nat, j: nat)
    requires forall s :: step(s) == FallStep(g, dt, s)
    requires j <= n
    ensures Trace(step, Launch(vx0, vy0), n)[j] == FreeFlightState(g, vx0, vy0, Time(dt, j))
  {
    FallTrace(step, g, dt, vx0, vy0, j);
    TracePrefix(step, Launch(vx0, vy0), j, n);
    assert Trace(step, Launch(vx0, vy0), n)[j] == Trace(step, Launch(vx0, vy0), j)[j];
  }

  /** Without drag and spin, every raw sample of a simulated run lies on the
      drag-free trajectory at its recorded time: all samples but the last,
      and the last one too when the run ends in the air. */
  lemma SimulationOnParabola(p: Params, vx0: real, vy0: real, dt: real, tMax: real,
                             xs: seq<real>, ys: seq<real>, ts: seq<real>)
    requires p.m > 0.0 && FreeFlight(p)
    requires IsRun(Rk4(p, dt), vx0, vy0, dt, tMax, xs, ys, ts)
    ensures forall j :: RawIndex(Rk4(p, dt), vx0, vy0, |xs| - 1, j) ==>
      xs[j] == vx0 * ts[j] && ys[j] == vy0 * ts[j] - p.g * ts[j] * ts[j] / 2.0
  {
    Rk4FreeFlight(p, dt);
    RunOnParabola(Rk4(p, dt), p.g, vx0, vy0, dt, tMax, xs, ys, ts);
  }
}
