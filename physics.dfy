/** Forces and the fixed-step Runge-Kutta update of the spin + drag projectile.
    Transcendental inputs (cos, sin, the rpm-to-rad/s factor 2*pi/60) are not
    computed here: the launch velocity components and the spin rate omega
    arrive as real parameters. */
module Physics {

  /** A 4-vector (x, y, vx, vy). As the state of the projectile it holds position
      and velocity; as the value of Deriv it holds their time derivatives. */
  datatype State = State(x: real, y: real, vx: real, vy: real)

  /** The constants the derivative closes over: drag coefficient k, projectile
      mass m, gravitational acceleration g, Magnus coefficient cM and spin rate
      omega (rad/s, held constant for the whole flight). */
  datatype Params = Params(k: real, m: real, g: real, cM: real, omega: real)

  /** Sentinel time constant used when there is no drag. */
  const NoDragTau: real := 10000000000.0

  /** Drag time constant tau = m / k, or the large sentinel when k is zero,
      so that the closed-form drag solution never divides by zero. */
  function Tau(k: real, m: real): (tau: real)
    ensures k != 0.0 ==> tau * k == m
    ensures k == 0.0 ==> tau == NoDragTau
    ensures m > 0.0 && k >= 0.0 ==> tau > 0.0
  {
    if k != 0.0 then m / k else NoDragTau
  }

  function Add(a: State, b: State): State
  {
    State(a.x + b.x, a.y + b.y, a.vx + b.vx, a.vy + b.vy)
  }

  function Scale(c: real, a: State): State
  {
    State(c * a.x, c * a.y, c * a.vx, c * a.vy)
  }

  /** Pure linear (Stokes) drag plus gravity: the reference right-hand side
      that the spin model must reduce to when there is no Magnus force. */
  function LinearDragDeriv(p: Params, s: State): State
    requires p.m > 0.0
  {
    State(s.vx, s.vy, -(p.k / p.m) * s.vx, -(p.k / p.m) * s.vy - p.g)
  }

  /** Right-hand side of the equations of motion: linear drag opposing the
      velocity plus a planar Magnus term orthogonal to it, and gravity. */
  function Deriv(p: Params, s: State): (d: State)
    requires p.m > 0.0
    ensures d.x == s.vx && d.y == s.vy
  {
    var axDrag := -(p.k / p.m) * s.vx;
    var ayDrag := -(p.k / p.m) * s.vy;
    var axMag := (p.cM / p.m) * (-p.omega * s.vy);
    var ayMag := (p.cM / p.m) * (p.omega * s.vx);
    State(s.vx, s.vy, axDrag + axMag, ayDrag + ayMag - p.g)
  }

  /** Without spin (omega = 0) or without a Magnus coefficient the Magnus
      term vanishes and the right-hand side is pure linear drag plus gravity. */
  lemma DerivWithoutMagnus(p: Params, s: State)
    requires p.m > 0.0 && (p.omega == 0.0 || p.cM == 0.0)
    ensures Deriv(p, s) == LinearDragDeriv(p, s)
  {
    var c := p.cM / p.m;
    if p.cM == 0.0 {
      assert c == 0.0;
    } else {
      assert -p.omega * s.vy == 0.0 && p.omega * s.vx == 0.0;
    }
    assert c * (-p.omega * s.vy) == 0.0 && c * (p.omega * s.vx) == 0.0;
  }

  /** The Magnus part of the acceleration (what Deriv adds to linear drag
      and gravity) is perpendicular to the velocity, so it bends the path
      without doing work. */
  lemma MagnusPerpendicular(p: Params, s: State)
    requires p.m > 0.0
    ensures var d, l := Deriv(p, s), LinearDragDeriv(p, s);
      (d.vx - l.vx) * s.vx + (d.vy - l.vy) * s.vy == 0.0
  {
    var c := p.cM / p.m;
    assert Deriv(p, s).vx - LinearDragDeriv(p, s).vx == c * (-p.omega * s.vy);
    assert Deriv(p, s).vy - LinearDragDeriv(p, s).vy == c * (p.omega * s.vx);
    assert c * (-p.omega * s.vy) * s.vx == -(c * p.omega * s.vx * s.vy);
    assert c * (p.omega * s.vx) * s.vy == c * p.omega * s.vx * s.vy;
  }

  /** With neither drag nor Magnus force only gravity accelerates the
      projectile. */
  lemma DerivFreeFlight(p: Params, s: State)
    requires p.m > 0.0 && FreeFlight(p)
    ensures Deriv(p, s) == State(s.vx, s.vy, 0.0, -p.g)
  {
    DerivWithoutMagnus(p, s);
    assert p.k / p.m == 0.0;
  }

  /** One classic four-stage Runge-Kutta step of size dt. */
  function Rk4Step(p: Params, dt: real, s: State): State
    requires p.m > 0.0
  {
    var k1 := Deriv(p, s);
    var k2 := Deriv(p, Add(s, Scale(0.5 * dt, k1)));
    var k3 := Deriv(p, Add(s, Scale(0.5 * dt, k2)));
    var k4 := Deriv(p, Add(s, Scale(dt, k3)));
    Add(s, Scale(dt / 6.0, Add(Add(k1, Scale(2.0, k2)), Add(Scale(2.0, k3), k4))))
  }

  /** The Runge-Kutta step of size dt as a one-step map of the state. */
  function Rk4(p: Params, dt: real): State -> State
    requires p.m > 0.0
  {
    s => Rk4Step(p, dt, s)
  }

  /** No drag and no Magnus force: only gravity acts. */
  predicate FreeFlight(p: Params)
  {
    p.k == 0.0 && (p.omega == 0.0 || p.cM == 0.0)
  }

  /** The exact advance by dt under constant downward acceleration g. */
  function FallStep(g: real, dt: real, s: State): State
  {
    State(s.x + s.vx * dt, s.y + s.vy * dt - g * dt * dt / 2.0, s.vx, s.vy - g * dt)
  }

  /** Without drag and spin the Runge-Kutta step is exact: it advances the
      state along the parabola of uniformly accelerated motion. */
  lemma Rk4FreeFlightExact(p: Params, dt: real, s: State)
    requires p.m > 0.0 && FreeFlight(p)
    ensures Rk4Step(p, dt, s) == FallStep(p.g, dt, s)
  {
    var h := 0.5 * dt;
    var k1 := Deriv(p, s);
    DerivFreeFlight(p, s);
    var s2 := Add(s, Scale(h, k1));
    var k2 := Deriv(p, s2);
    DerivFreeFlight(p, s2);
    assert k2 == State(s.vx, s.vy - h * p.g, 0.0, -p.g);
    var s3 := Add(s, Scale(h, k2));
    var k3 := Deriv(p, s3);
    DerivFreeFlight(p, s3);
    assert k3 == k2;
    var s4 := Add(s, Scale(dt, k3));
    var k4 := Deriv(p, s4);
    DerivFreeFlight(p, s4);
    assert k4 == State(s.vx, s.vy - dt * p.g, 0.0, -p.g);
    var sum := Add(Add(k1, Scale(2.0, k2)), Add(Scale(2.0, k3), k4));
    assert sum == State(6.0 * s.vx, 6.0 * s.vy - 3.0 * dt * p.g, 0.0, -6.0 * p.g);
  }

  /** The same fact for the one-step map the integrator is given. */
  lemma Rk4FreeFlight(p: Params, dt: real)
    requires p.m > 0.0 && FreeFlight(p)
    ensures forall s :: Rk4(p, dt)(s) == FallStep(p.g, dt, s)
  {
    forall s
      ensures Rk4(p, dt)(s) == FallStep(p.g, dt, s)
    {
      Rk4FreeFlightExact(p, dt, s);
    }
  }
}
