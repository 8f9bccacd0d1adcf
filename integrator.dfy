/** The integration loop of simulate_linear_drag_with_spin_rk4, written once
    for any one-step map, and Simulate, which runs it with the Runge-Kutta
    step of the spin + drag equations. Both are proved to produce exactly a
    run in the sense of Flight.IsRun. */
module Integrator {
  import opened Physics
  import opened Flight

  /** The loop of simulate_linear_drag_with_spin_rk4 for a given one-step
      map: advance while the clock is below tMax, record every new state, and
      on the first negative height replace the last sample by the linearly
      interpolated ground point and stop. */
  method Integrate(step: State -> State, vx0: real, vy0: real, dt: real, tMax: real)
    returns (xs: seq<real>, ys: seq<real>, ts: seq<real>)
    requires dt > 0.0
    ensures IsRun(step, vx0, vy0, dt, tMax, xs, ys, ts)
  {
    var x, y := 0.0, 0.0;
    xs, ys := [x], [y];
    ts := [0.0];
    var t := 0.0;
    var state := State(x, y, vx0, vy0);
    ghost var i: nat := 0;
    ghost var tr := [state];
    while t < tMax
      invariant LoopState(step, vx0, vy0, dt, tMax, i, t, state, tr, xs, ys, ts)
      invariant state.y >= 0.0
      invariant i <= StepLimit(dt, tMax)
      decreases StepLimit(dt, tMax) - i
    {
      StepWithinLimit(dt, tMax, i);
      var stateNext := step(state);
      var tNext := t + dt;
      xs := xs + [stateNext.x];
      ys := ys + [stateNext.y];
      ts := ts + [tNext];
      state := stateNext;
      t := tNext;
      i := i + 1;
      tr := tr + [stateNext];
      if stateNext.y < 0.0 {
        xs, ys, ts := Land(step, vx0, vy0, dt, tMax, i, t, state, tr, xs, ys, ts);
        return;  // the loop is left with break and the lists are returned
      }
    }
    AirborneRun(step, vx0, vy0, dt, tMax, i, t, state, tr, xs, ys, ts);
  }

  /** What holds at the head of every pass of the loop after i passes: the
      lists hold i + 1 samples, the raw states of the trace so far with their
      clock values; t is the clock and state the last raw state; every state
      before it was at or above ground and every pass began before tMax. */
  ghost predicate LoopState(step: State -> State, vx0: real, vy0: real, dt: real, tMax: real,
                            i: nat, t: real, state: State, tr: seq<State>,
                            xs: seq<real>, ys: seq<real>, ts: seq<real>)
  {
    |xs| == |ys| == |ts| == i + 1 && t == Time(dt, i) &&
    tr == Trace(step, Launch(vx0, vy0), i) && state == tr[i] &&
    (forall j :: 0 <= j <= i ==> xs[j] == tr[j].x && ys[j] == tr[j].y) &&
    ts == Times(dt, i) &&
    (forall j :: 0 <= j < i ==> tr[j].y >= 0.0) &&
    (i > 0 ==> Time(dt, i - 1) < tMax)
  }

  /** The ground-crossing refinement after a pass whose new height is
      negative: the last sample is replaced by the point where the chord from
      the previous sample meets the ground, with the time interpolated by the
      same fraction; every earlier sample is kept. */
  method Land(ghost step: State -> State, ghost vx0: real, ghost vy0: real, ghost dt: real,
              ghost tMax: real, ghost i: nat, ghost t: real, ghost state: State,
              ghost tr: seq<State>, xs: seq<real>, ys: seq<real>, ts: seq<real>)
    returns (xs': seq<real>, ys': seq<real>, ts': seq<real>)
    requires LoopState(step, vx0, vy0, dt, tMax, i, t, state, tr, xs, ys, ts)
    requires state.y < 0.0
    ensures IsRun(step, vx0, vy0, dt, tMax, xs', ys', ts')
    ensures |xs'| == |xs| && xs'[..i] == xs[..i]
    ensures |ys'| == |ys| && ys'[..i] == ys[..i] && ys'[i] == 0.0
    ensures |ts'| == |ts| && ts'[..i] == ts[..i]
  {
    assert i > 0;
    LandedRun(step, vx0, vy0, dt, tMax, tr, xs, ys, ts);
    var xPrev, yPrev := xs[|xs| - 2], ys[|ys| - 2];
    var xNext, yNext := xs[|xs| - 1], ys[|ys| - 1];
    var frac := Frac(yPrev, yNext);
    var xGround := Lerp(xPrev, xNext, frac);
    var tGround := Lerp(ts[|ts| - 2], ts[|ts| - 1], frac);
    xs' := xs[|xs| - 1 := xGround];
    ys' := ys[|ys| - 1 := 0.0];
    ts' := ts[|ts| - 1 := tGround];
  }

  /** The loop state after the last pass, with the projectile still in the
      air at tMax, already forms a run. */
  lemma {:induction false} AirborneRun(step: State -> State, vx0: real, vy0: real, dt: real,
                                       tMax: real, i: nat, t: real, state: State,
                                       tr: seq<State>, xs: seq<real>, ys: seq<real>, ts: seq<real>)
    requires LoopState(step, vx0, vy0, dt, tMax, i, t, state, tr, xs, ys, ts)
    requires state.y >= 0.0
    requires t >= tMax
    ensures IsRun(step, vx0, vy0, dt, tMax, xs, ys, ts)
  {
    assert !(tr[i].y < 0.0);
  }

  /** The loop state right after a pass whose new height is negative, once
      the last sample is replaced by the interpolated ground point, forms a
      run. */
  lemma {:induction false} LandedRun(step: State -> State, vx0: real, vy0: real, dt: real, tMax: real,
                                     tr: seq<State>, xs: seq<real>, ys: seq<real>, ts: seq<real>)
    requires |tr| >= 2 && tr == Trace(step, Launch(vx0, vy0), |tr| - 1)
    requires |xs| == |ys| == |tr| && ts == Times(dt, |tr| - 1)
    requires forall j :: 0 <= j < |tr| ==> xs[j] == tr[j].x && ys[j] == tr[j].y
    requires forall j :: 0 <= j < |tr| - 1 ==> tr[j].y >= 0.0
    requires Time(dt, |tr| - 2) < tMax
    requires tr[|tr| - 1].y < 0.0
    ensures var n := |tr| - 1;
      var f := Frac(ys[n - 1], ys[n]);
      IsRun(step, vx0, vy0, dt, tMax,
            xs[n := Lerp(xs[n - 1], xs[n], f)], ys[n := 0.0], ts[n := Lerp(ts[n - 1], ts[n], f)])
  {
  }

  /** simulate_linear_drag_with_spin_rk4 with the transcendental inputs
      already evaluated: vx0 = v0 cos(theta), vy0 = v0 sin(theta), and the
      spin rate in p.omega. Each pass advances by one Runge-Kutta step. */
  method Simulate(p: Params, vx0: real, vy0: real, dt: real, tMax: real)
    returns (xs: seq<real>, ys: seq<real>, ts: seq<real>)
    requires p.m > 0.0 && dt > 0.0
    ensures IsRun(Rk4(p, dt), vx0, vy0, dt, tMax, xs, ys, ts)
  {
    xs, ys, ts := Integrate(Rk4(p, dt), vx0, vy0, dt, tMax);
  }
}
