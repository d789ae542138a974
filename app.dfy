/** The physics phase of the simulator's animation loop (src/App.js): two bodies pull
    on each other by gravity alone, take the resulting accelerations and advance by one
    explicit Euler step of `del_t`. Rendering and scheduling are not modelled. */
module App {
  import opened Physics

  /** `del_t`: the time step of one tick. */
  const Dt: real := 0.2

  /** The snapshots of the two bodies the component is created with. */
  const Body1Start: Body := Body(Vec2(700.0, 600.0), Vec2(-20.0, -20.0), Vec2(0.0, 0.0), 10.0, 0.0, 10.0)
  const Body2Start: Body := Body(Vec2(500.0, 400.0), Vec2(0.0, 0.0), Vec2(0.0, 0.0), 10.0, 0.0, 10.0)

  /** The two bodies of the simulation, built with the constructor's argument order
      (name, velocity, position, radius, charge, mass, color). */
  method InitialBodies() returns (body1: PhysicsBody, body2: PhysicsBody)
    ensures fresh(body1) && fresh(body2) && body1 != body2
    ensures body1.name == "Body1" && body1.color == "green" && body1.State() == Body1Start
    ensures body2.name == "Body2" && body2.color == "blue" && body2.State() == Body2Start
  {
    body1 := new PhysicsBody("Body1", -20.0, -20.0, 700.0, 600.0, 10.0, 0.0, 10.0, "green");
    body2 := new PhysicsBody("Body2", 0.0, 0.0, 500.0, 400.0, 10.0, 0.0, 10.0, "blue");
  }

  /** One tick on snapshots: both gravitational forces from the positions before the
      tick, then each body's acceleration, then each body's update. Mass, charge and
      radius never change. */
  function Tick(sqrt: real -> real, s1: Body, s2: Body): (r: (Body, Body))
    requires IsSqrt(sqrt) && s1.pos != s2.pos && s1.mass != 0.0 && s2.mass != 0.0
    ensures r.0.mass == s1.mass && r.0.charge == s1.charge && r.0.radius == s1.radius
    ensures r.1.mass == s2.mass && r.1.charge == s2.charge && r.1.radius == s2.radius
  {
    var forceOnBody2 := NewtonianGravity(sqrt, G, s1, s2);
    var forceOnBody1 := NewtonianGravity(sqrt, G, s2, s1);
    (Euler(Accelerate(s1, forceOnBody1), Dt), Euler(Accelerate(s2, forceOnBody2), Dt))
  }

  /** updatePositions, physics part: the two objects change exactly as Tick says, and
      their names and colors stay. */
  method Step(sqrt: real -> real, body1: PhysicsBody, body2: PhysicsBody)
    requires IsSqrt(sqrt) && body1.State().pos != body2.State().pos
    requires body1.mass != 0.0 && body2.mass != 0.0
    modifies body1, body2
    ensures (body1.State(), body2.State()) == Tick(sqrt, old(body1.State()), old(body2.State()))
    ensures body1.name == old(body1.name) && body1.color == old(body1.color)
    ensures body2.name == old(body2.name) && body2.color == old(body2.color)
  {
    var forceOnBody2 := NewtonianGravity(sqrt, G, body1.State(), body2.State());
    var forceOnBody1 := NewtonianGravity(sqrt, G, body2.State(), body1.State());
    body1.NetAcceleration(forceOnBody1);
    body2.NetAcceleration(forceOnBody2);
    body1.Update(Dt);
    body2.Update(Dt);
  }

  // ---------------------------------------------------------------------------
  // What a tick does
  // ---------------------------------------------------------------------------

  /** After a tick each body's acceleration times its mass is the gravity the other
      body exerts on it, and the two are opposite. */
  lemma TickAccelerations(sqrt: real -> real, s1: Body, s2: Body)
    requires IsSqrt(sqrt) && s1.pos != s2.pos && s1.mass != 0.0 && s2.mass != 0.0
    ensures var (t1, t2) := Tick(sqrt, s1, s2);
      Scale(t1.acc, t1.mass) == NewtonianGravity(sqrt, G, s2, s1)
      && Scale(t2.acc, t2.mass) == NewtonianGravity(sqrt, G, s1, s2)
      && Scale(t1.acc, t1.mass) == Neg(Scale(t2.acc, t2.mass))
  {
    GravityThirdLaw(sqrt, G, s2, s1);
  }

  /** Positions move with the velocities from before the tick. */
  lemma TickPositions(sqrt: real -> real, s1: Body, s2: Body)
    requires IsSqrt(sqrt) && s1.pos != s2.pos && s1.mass != 0.0 && s2.mass != 0.0
    ensures var (t1, t2) := Tick(sqrt, s1, s2);
      t1.pos == Add(s1.pos, Scale(s1.vel, Dt)) && t2.pos == Add(s2.pos, Scale(s2.vel, Dt))
  {
  }

  /** Velocities move by the freshly set acceleration: each body is updated once,
      after its acceleration was replaced by the gravity of the other body. */
  lemma TickVelocities(sqrt: real -> real, s1: Body, s2: Body)
    requires IsSqrt(sqrt) && s1.pos != s2.pos && s1.mass != 0.0 && s2.mass != 0.0
    ensures var (t1, t2) := Tick(sqrt, s1, s2);
      t1.vel == Add(s1.vel, Scale(t1.acc, Dt)) && t2.vel == Add(s2.vel, Scale(t2.acc, Dt))
  {
  }

  function Momentum(s: Body): Vec2 { Scale(s.vel, s.mass) }

  /** The total momentum `m1 * v1 + m2 * v2` is the same after a tick. */
  lemma TickConservesMomentum(sqrt: real -> real, s1: Body, s2: Body)
    requires IsSqrt(sqrt) && s1.pos != s2.pos && s1.mass != 0.0 && s2.mass != 0.0
    ensures var (t1, t2) := Tick(sqrt, s1, s2);
      Add(Momentum(t1), Momentum(t2)) == Add(Momentum(s1), Momentum(s2))
  {
    var (t1, t2) := Tick(sqrt, s1, s2);
    TickAccelerations(sqrt, s1, s2);
    var f := Scale(t1.acc, t1.mass);
    KickMomentum(s1, t1);
    KickMomentum(s2, t2);
    assert Scale(t2.acc, t2.mass) == Neg(f);
    OppositeKicks(Momentum(s1), Momentum(s2), f, Dt);
  }

  /** A body whose velocity moved by `acc * Dt` gained `mass * acc * Dt` momentum. */
  lemma KickMomentum(s: Body, t: Body)
    requires t.mass == s.mass && t.vel == Add(s.vel, Scale(t.acc, Dt))
    ensures Momentum(t) == Add(Momentum(s), Scale(Scale(t.acc, t.mass), Dt))
  {
    assert (s.vel.x + t.acc.x * Dt) * s.mass == s.vel.x * s.mass + t.acc.x * s.mass * Dt;
    assert (s.vel.y + t.acc.y * Dt) * s.mass == s.vel.y * s.mass + t.acc.y * s.mass * Dt;
  }

  lemma OppositeKicks(p1: Vec2, p2: Vec2, f: Vec2, dt: real)
    ensures Add(Add(p1, Scale(f, dt)), Add(p2, Scale(Neg(f), dt))) == Add(p1, p2)
  {
  }

  /** The mass-weighted position `m1 * p1 + m2 * p2` moves by the total momentum times
      `Dt`. */
  lemma TickCentreOfMass(sqrt: real -> real, s1: Body, s2: Body)
    requires IsSqrt(sqrt) && s1.pos != s2.pos && s1.mass != 0.0 && s2.mass != 0.0
    ensures var (t1, t2) := Tick(sqrt, s1, s2);
      Add(Scale(t1.pos, t1.mass), Scale(t2.pos, t2.mass))
        == Add(Add(Scale(s1.pos, s1.mass), Scale(s2.pos, s2.mass)),
               Scale(Add(Momentum(s1), Momentum(s2)), Dt))
  {
    var (t1, t2) := Tick(sqrt, s1, s2);
    TickPositions(sqrt, s1, s2);
    DriftWeighted(s1.pos, s1.vel, s1.mass);
    DriftWeighted(s2.pos, s2.vel, s2.mass);
  }

  lemma DriftWeighted(p: Vec2, v: Vec2, m: real)
    ensures Scale(Add(p, Scale(v, Dt)), m) == Add(Scale(p, m), Scale(Scale(v, m), Dt))
  {
    assert (p.x + v.x * Dt) * m == p.x * m + v.x * m * Dt;
    assert (p.y + v.y * Dt) * m == p.y * m + v.y * m * Dt;
  }

  /** Charge plays no part in a tick: changing the charges changes nothing else. */
  lemma TickIgnoresCharge(sqrt: real -> real, s1: Body, s2: Body, q1: real, q2: real)
    requires IsSqrt(sqrt) && s1.pos != s2.pos && s1.mass != 0.0 && s2.mass != 0.0
    ensures var (t1, t2) := Tick(sqrt, s1, s2);
      Tick(sqrt, s1.(charge := q1), s2.(charge := q2)) == (t1.(charge := q1), t2.(charge := q2))
  {
    GravityIgnoresCharge(sqrt, s1, s2, q1, q2);
    GravityIgnoresCharge(sqrt, s2, s1, q2, q1);
  }

  lemma GravityIgnoresCharge(sqrt: real -> real, s1: Body, s2: Body, q1: real, q2: real)
    requires IsSqrt(sqrt) && s1.pos != s2.pos
    ensures NewtonianGravity(sqrt, G, s1.(charge := q1), s2.(charge := q2))
      == NewtonianGravity(sqrt, G, s1, s2)
  {
    assert GravityStrength(G, s1.(charge := q1), s2.(charge := q2)) == GravityStrength(G, s1, s2);
  }

  /** With positive masses each body's velocity change points towards the other body. */
  lemma TickAttracts(sqrt: real -> real, s1: Body, s2: Body)
    requires IsSqrt(sqrt) && s1.pos != s2.pos && 0.0 < s1.mass && 0.0 < s2.mass
    ensures var (t1, t2) := Tick(sqrt, s1, s2);
      0.0 < Dot(Sub(t1.vel, s1.vel), Separation(s1, s2))
      && 0.0 < Dot(Sub(t2.vel, s2.vel), Separation(s2, s1))
  {
    var (t1, t2) := Tick(sqrt, s1, s2);
    TickAccelerations(sqrt, s1, s2);
    GravityAttracts(sqrt, G, s2, s1);
    GravityAttracts(sqrt, G, s1, s2);
    PulledTowards(s1, t1, Separation(s2, s1));
    PulledTowards(s2, t2, Separation(s1, s2));
  }

  /** If the force `mass * acc` points against `away`, the velocity change `acc * Dt`
      points along `-away`. */
  lemma PulledTowards(s: Body, t: Body, away: Vec2)
    requires 0.0 < t.mass && Sub(t.vel, s.vel) == Scale(t.acc, Dt)
    requires Dot(Scale(t.acc, t.mass), away) < 0.0
    ensures 0.0 < Dot(Sub(t.vel, s.vel), Neg(away))
  {
    var d := Dot(t.acc, away);
    assert Dot(Scale(t.acc, t.mass), away) == d * t.mass;
    assert d < 0.0;
    assert Dot(Scale(t.acc, Dt), Neg(away)) == -(d * Dt);
  }
}
