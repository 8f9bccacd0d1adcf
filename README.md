# Projectile with linear drag and spin: the integrator and its metrics

This project models the computational core of an interactive projectile
simulator, `B11504118_term_project.py`. It covers four parts.

- **The integrator.** `simulate_linear_drag_with_spin_rk4` follows a launched
  ball under linear drag, a planar Magnus force and gravity. It uses
  fixed-step classic Runge-Kutta. It records the samples `xs`, `ys`, `ts` from
  the launch at (0, 0, 0). At the first negative height it replaces the last
  sample by the linearly interpolated ground point and stops.
- **The right-hand side.** `deriv` is modelled together with the Runge-Kutta
  stage combination.
- **The metrics.** `compute_metrics_from_xy` reads the maximum height and the
  range off the samples after negative heights were masked to not-a-number.
- **The small selections.** These are the displayed flight time (the last
  recorded time, or not-a-number) and the no-drag sentinel for the drag time
  constant `tau`.

Everything is over Dafny's exact `real`.

The modules:

- `Physics` (physics.dfy) holds the state 4-vector, the parameters, `Tau`,
  `Deriv` and the Runge-Kutta step `Rk4Step`. It proves:
  - the Magnus-free and force-free reductions of `Deriv`;
  - that the Magnus term is perpendicular to the velocity;
  - that without drag and spin one Runge-Kutta step is exact uniformly
    accelerated motion.
- `Flight` (flight.dfy) holds what a run is:
  - the raw trace of a one-step map, `Trace`, and the clock, `Time`;
  - the step limit ⌈tMax/dt⌉;
  - the ground-crossing fraction and the interpolation;
  - the predicate `IsRun`, which states exactly which `xs`, `ys`, `ts` the
    loop returns.

  Its lemmas cover the bound on the number of passes and the non-negative
  heights. They also cover the ordered times, the ground point and
  determinism.
- `Integrator` (integrator.dfy) holds the loop itself as a method over
  sequences. It is written once for any one-step map and proved to return a
  run. `Simulate` instantiates it with the Runge-Kutta step.
- `Parabola` (parabola.dfy) proves that without drag and spin every raw sample
  lies on the closed-form drag-free trajectory x = vx0·t, y = vy0·t − g·t²/2
  at its recorded time. The raw samples are all samples but the last, and the
  last one too when the run ends in the air rather than on the interpolated
  ground point. That trajectory is `trajectory_no_drag` with the
  trigonometry already applied.
- `Metrics` (metrics.dfy) holds the masking, `ComputeMetrics` and the flight
  time, with not-a-number modelled as `None`. Its closing lemma states what
  the displayed figures are for a run of the integrator.

## Model

| member | source | states |
|---|---|---|
| Physics.Tau | B11504118_term_project.py:24 | tau·k = m when k ≠ 0, the 1e10 sentinel when k = 0, and tau is positive for positive mass and non-negative drag |
| Physics.Deriv | B11504118_term_project.py:44-56 | the position derivatives are the velocity components |
| Physics.DerivWithoutMagnus | B11504118_term_project.py:46-54 | with omega = 0 or C_M = 0 the right-hand side is pure linear drag plus gravity |
| Physics.DerivFreeFlight | B11504118_term_project.py:46-54 | with k = 0 as well it is (vx, vy, 0, −g) |
| Physics.MagnusPerpendicular | B11504118_term_project.py:49-53 | the Magnus acceleration is orthogonal to the velocity |
| Physics.Rk4FreeFlightExact | B11504118_term_project.py:62-66 | without drag and spin the four-stage combination equals exact uniformly accelerated motion over dt |
| Physics.Rk4FreeFlight | B11504118_term_project.py:62-66 | the same for the step as a map of the state |
| Physics.Rk4Step | B11504118_term_project.py:62-66 | the four-stage combination; its facts are carried by Physics.Rk4FreeFlightExact |
| Physics.Rk4 | B11504118_term_project.py:62-66 | the same step as a map of the state, the map the loop applies each pass; Physics.Rk4FreeFlight states its free-flight form |
| Flight.Launch | B11504118_term_project.py:37-59 | the initial state (0, 0, vx0, vy0), the first entry of every trace |
| Flight.Time | B11504118_term_project.py:58-77 | the clock t after n additions of dt; its facts are carried by Flight.TimeIsProduct, Flight.TimeIncreasing and Flight.TimeNonNegative |
| Flight.Frac | B11504118_term_project.py:81 | the crossing fraction y_prev / (y_prev − y_next); its facts are carried by Flight.FracCrossing |
| Flight.Lerp | B11504118_term_project.py:82-83 | the linear interpolation used for x_ground and t_ground; its facts are carried by Flight.LerpBetween |
| Flight.Trace | B11504118_term_project.py:59-76 | entry 0 is the given start state and the last entry is the step applied to the one before it; with Flight.TracePrefix every later entry is the step applied to its predecessor |
| Flight.IsRun | B11504118_term_project.py:41-91 | the lists the function returns: equal lengths of at least one, and the samples RunSamples describes |
| Flight.RunSamples | B11504118_term_project.py:41-91 | samples start at (0, 0, 0); earlier ones are raw trace states at their clock values, all airborne, each pass begun before tMax; the last is the interpolated ground point after the first negative height, or else the raw state at the first clock value ≥ tMax |
| Flight.Times | B11504118_term_project.py:68-77 | the j-th time is the clock after j additions of dt |
| Flight.TracePrefix | B11504118_term_project.py:61-76 | a shorter trace is a prefix of a longer one |
| Flight.TimeIsProduct | B11504118_term_project.py:68-77 | the clock after n passes is n·dt |
| Flight.TimeIncreasing | B11504118_term_project.py:68-77 | with dt > 0 the clock strictly increases |
| Flight.TimeNonNegative | B11504118_term_project.py:68-77 | with dt ≥ 0 the clock is never negative |
| Flight.StepLimit | B11504118_term_project.py:61-77 | ⌈tMax/dt⌉ is the first pass count whose clock reaches tMax |
| Flight.StepWithinLimit | B11504118_term_project.py:61-77 | a pass that starts before tMax is below that limit, which bounds the loop |
| Flight.FracCrossing | B11504118_term_project.py:78-81 | with y_prev ≥ 0 > y_next the fraction lies in [0, 1) and the chord meets height 0 there |
| Flight.LerpBetween | B11504118_term_project.py:82-83 | the interpolated value lies between the endpoints, strictly short of the far one |
| Flight.RawIndex | B11504118_term_project.py:70-88 | which samples are raw trace states: every sample but the last, and the last one too unless the run landed |
| Flight.RunRawSamples | B11504118_term_project.py:70-74 | every raw sample (each index RawIndex admits) is the trace state at its clock value |
| Flight.RunStepBound | B11504118_term_project.py:61-77 | a run has at most ⌈tMax/dt⌉ + 1 samples |
| Flight.RunHeightsNonNegative | B11504118_term_project.py:78-86 | every returned height is ≥ 0, and a run that crossed the ground ends at height 0 |
| Flight.RunLastTime | B11504118_term_project.py:83-87 | the last time lies between the last two clock values, strictly before the later one after a crossing |
| Flight.RunTimesOrdered | B11504118_term_project.py:61-88 | times strictly increase before the last sample and never decrease overall |
| Flight.RunEnd | B11504118_term_project.py:78-88 | after a crossing the last sample is at height 0 with x between the last two raw positions and t in [t_prev, t_prev + dt); otherwise the last time is the first clock value ≥ tMax |
| Flight.RunLengthUnique | B11504118_term_project.py:61-88 | no run for the same inputs stops earlier than another |
| Flight.RunDeterministic | B11504118_term_project.py:32-91 | two runs for the same inputs are equal |
| Integrator.Integrate | B11504118_term_project.py:41-91 | the loop returns exactly the run IsRun describes: equal-length lists from (0, 0, 0), raw samples while airborne and before tMax, and a final ground point or final sample at or past tMax |
| Integrator.LoopState | B11504118_term_project.py:58-77 | the loop invariant shared by Integrate, Land and AirborneRun: lists of i + 1 raw samples at their clock values, all earlier states airborne, every pass begun before tMax |
| Integrator.Land | B11504118_term_project.py:78-88 | the correction rewrites only the last entry of each list, sets the last height to 0, and completes a run |
| Integrator.AirborneRun | B11504118_term_project.py:61-91 | leaving the loop airborne at tMax yields a run |
| Integrator.LandedRun | B11504118_term_project.py:78-88 | the interpolated ground point after the first negative height yields a run |
| Integrator.Simulate | B11504118_term_project.py:32-91 | the simulation is a run of the Runge-Kutta step |
| Parabola.FreeFlightState | B11504118_term_project.py:11-15 | the drag-free state (vx0·t, vy0·t − g·t²/2, vx0, vy0 − g·t) at time t |
| Parabola.ParabolaAdvance | B11504118_term_project.py:11-15 | advancing the drag-free state at t by dt gives the drag-free state at t + dt |
| Parabola.FallTrace | B11504118_term_project.py:11-15 | for an exact free-fall step the n-th trace state is the drag-free state at Time(dt, n) |
| Parabola.FallTraceAt | B11504118_term_project.py:11-15 | the same for every state of a longer trace |
| Parabola.RawSamplesOnParabola | B11504118_term_project.py:11-15 | samples that are trace states of such a step at their clock values satisfy x = vx0·t and y = vy0·t − g·t²/2 |
| Parabola.RunOnParabola | B11504118_term_project.py:11-15 | every raw sample of a run of such a step lies on the drag-free trajectory, including the last one when the run did not land |
| Parabola.SimulationOnParabola | B11504118_term_project.py:32-91 | without drag and spin every raw sample of the simulation lies on the drag-free trajectory at its time, including the last one when the run ends in the air |
| Metrics.MaskBelowGround | B11504118_term_project.py:178-180 | a height is kept exactly when it is ≥ 0, and kept values are unchanged |
| Metrics.Present | B11504118_term_project.py:153-157 | the selected heights are exactly the present values, and there are none iff every entry is absent |
| Metrics.Select | B11504118_term_project.py:153-158 | as many x values are selected as heights, and the last one is x at the last present index |
| Metrics.LastPresent | B11504118_term_project.py:156-158 | the last present index: present, with every later entry absent |
| Metrics.MaxOf | B11504118_term_project.py:158 | the maximum is an element and is ≥ every element |
| Metrics.ComputeMetrics | B11504118_term_project.py:152-158 | both figures are undefined iff no height is present; otherwise the height is a present height ≥ all present heights, and the range is x at the last present index |
| Metrics.FlightTime | B11504118_term_project.py:188 | undefined iff there are no times, otherwise the last time |
| Metrics.AboveGroundMetrics | B11504118_term_project.py:178-187 | for samples all ≥ 0 nothing is masked, the height is their maximum and the range is the last x |
| Metrics.RunMetrics | B11504118_term_project.py:178-188 | for a run: nothing is masked, the height is the largest recorded height, the range is the last x (the ground point after a crossing), and the flight time is the last time |

## Left out

- The matplotlib figure, the sliders, their callbacks and the text overlay are user interface, so they are not modelled.
- `np.radians`, `np.sin`, `np.cos`, `np.exp` and `np.pi` are transcendental.
  - The launch components vx0 = v0·cos θ and vy0 = v0·sin θ arrive as parameters.
  - So does the spin rate omega = rpm·2π/60.
  - The closed-form linear-drag trajectory `trajectory_linear_drag` is not modelled; only its `tau` selection is.
  - The no-drag range, height and flight-time formulas are not modelled.
- Floating point is not modelled: all arithmetic is exact `real`. This leaves out:
  - rounding drift in the repeated `t = t + dt`;
  - infinities (`np.isfinite` is modelled as "not not-a-number");
  - any claim about the accuracy of the Runge-Kutta solution.
- The module globals `g` and `m` are fields of `Params`. `m > 0` is required wherever `k/m` or `C_M/m` is taken.
- Integrator.Integrate and Integrator.Simulate require dt > 0. Every caller passes dt = 0.01 (lines 110 and 175).
  - With dt = 0 and t_max > 0 the source loops forever, since t never grows.
  - With dt < 0 the loop ends only if the backward trace goes below ground, which needs the force law. So termination for dt < 0 is not proved for a general step, and those runs are not modelled.
  - With dt ≤ 0 and t_max ≤ 0 the source returns the launch sample alone; the model does not cover this case either.
- The default arguments `dt=0.01` and `t_max=30.0` are not fixed in the model; they are ordinary parameters.
- `np.linspace`, the `__main__` entry point and the conversion of the lists to arrays on return are not modelled.
- The masking at lines 113-115 and the metrics of the closed-form linear-drag curve (line 186) use the same functions on other data. The model states them only for the functions and for runs of the integrator.
- Integrator.Integrate is written for any one-step map, with `Simulate` supplying the Runge-Kutta step. This keeps the loop's proof independent of the force law.
- Integrator.Integrate leaves the ground correction to `Land`, a method over the same sequences, and returns where the source has `break`.
- Metrics.ComputeMetrics requires the two arrays to have equal length, as boolean-mask indexing in numpy does.
