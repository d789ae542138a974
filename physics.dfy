/** The physics module of the simulator (src/physics.js): vector magnitude, the two
    central-force laws and the mutable PhysicsBody record with its force, acceleration
    and Euler-integration methods. Everything is over exact `real` arithmetic.

    Nonlinear facts about reals are proved in small `calc` steps: the solver does not
    reliably chain equalities through products on its own. */
module Physics {

  /** A pair of components: the `[Fx, Fy]` arrays returned by the force laws, and the
      position, velocity and acceleration of a body. */
  datatype Vec2 = Vec2(x: real, y: real)

  function Add(a: Vec2, b: Vec2): Vec2 { Vec2(a.x + b.x, a.y + b.y) }

  function Sub(a: Vec2, b: Vec2): Vec2 { Vec2(a.x - b.x, a.y - b.y) }

  function Neg(a: Vec2): Vec2 { Vec2(-a.x, -a.y) }

  function Scale(a: Vec2, c: real): Vec2 { Vec2(a.x * c, a.y * c) }

  function Dot(a: Vec2, b: Vec2): real { a.x * b.x + a.y * b.y }

  /** Zero exactly when `a` and `b` are parallel (or one of them is zero). */
  function Cross(a: Vec2, b: Vec2): real { a.x * b.y - a.y * b.x }

  /** `x ** 2` */
  function Sq(x: real): real { x * x }

  /** `x ** 3` */
  function Cube(x: real): real { Sq(x) * x }

  // Linearity facts the solver does not find by itself.

  lemma ScaleSucc(a: Vec2, m: real)
    ensures Add(Scale(a, m), a) == Scale(a, m + 1.0)
  {
  }

  lemma ScaleTwice(a: Vec2, c: real, m: real)
    ensures Scale(Scale(Scale(a, c), m), c) == Scale(Scale(a, c * c), m)
  {
    assert a.x * c * m * c == a.x * (c * c) * m;
    assert a.y * c * m * c == a.y * (c * c) * m;
  }

  lemma ScaleZero(b: Vec2, a: Vec2)
    ensures Add(b, Scale(a, 0.0)) == b
  {
  }

  lemma AddAssoc(a: Vec2, b: Vec2, c: Vec2)
    ensures Add(Add(a, b), c) == Add(a, Add(b, c))
  {
  }

  lemma ScaleSum(a: Vec2, c: real, d: real)
    ensures Add(Scale(a, c), Scale(a, d)) == Scale(a, c + d)
  {
  }

  lemma ScaleAdd(a: Vec2, b: Vec2, c: real)
    ensures Scale(Add(a, b), c) == Add(Scale(a, c), Scale(b, c))
  {
  }

  lemma Regroup(p: Vec2, x1: Vec2, y1: Vec2, x2: Vec2, y2: Vec2)
    ensures Add(Add(Add(p, x1), y1), Add(x2, y2)) == Add(Add(p, Add(x1, x2)), Add(y1, y2))
  {
  }

  /** Cross and Dot with a fixed vector are additive in the first argument. */
  lemma LinearInForce(a: Vec2, b: Vec2, r: Vec2, d: real)
    ensures Cross(Add(a, b), r) == Cross(a, r) + Cross(b, r)
    ensures Dot(Add(a, b), r) * d == Dot(a, r) * d + Dot(b, r) * d
  {
  }

  /** The gravitational constant and Coulomb's constant of the module. */
  const G: real := 6.6743e-11
  const K: real := 9e9

  // ---------------------------------------------------------------------------
  // Square root and magnitude
  // ---------------------------------------------------------------------------

  /** `Math.sqrt` is a foreign call: the model receives it as a parameter and knows
      only its defining property on the non-negative reals. */
  ghost predicate IsSqrt(sqrt: real -> real)
  {
    forall x: real :: 0.0 <= x ==> 0.0 <= sqrt(x) && Sq(sqrt(x)) == x
  }

  lemma SquarePositive(a: real)
    requires a != 0.0
    ensures 0.0 < Sq(a)
  {
    if 0.0 < a {
      calc {
        0.0;
      <  a * a;
      == Sq(a);
      }
    } else {
      assert 0.0 < -a;
      calc {
        0.0;
      <  (-a) * (-a);
      == Sq(a);
      }
    }
  }

  lemma SquareNonNegative(a: real)
    ensures 0.0 <= Sq(a)
  {
    if a != 0.0 {
      SquarePositive(a);
    }
  }

  /** A non-negative number whose square is positive is positive. */
  lemma PositiveRoot(m: real, s: real)
    requires 0.0 <= m && Sq(m) == s && 0.0 < s
    ensures 0.0 < m
  {
    if m == 0.0 {
      assert false;
    }
  }

  /** Non-negative square roots are unique, so every result below is the same whichever
      function satisfying IsSqrt is passed in. */
  lemma SqrtDetermined(sqrt: real -> real, x: real, m: real)
    requires IsSqrt(sqrt)
    requires 0.0 <= m && Sq(m) == x
    ensures sqrt(x) == m
  {
    var s := sqrt(x);
    assert 0.0 <= s && Sq(s) == x;
    assert (s - m) * (s + m) == 0.0;
    if s + m == 0.0 {
      assert s == 0.0 && m == 0.0;
    } else {
      assert s - m == 0.0;
    }
  }

  /** mag: the length of the vector (rx, ry), positive unless both components are 0. */
  function Mag(sqrt: real -> real, rx: real, ry: real): (m: real)
    requires IsSqrt(sqrt)
    ensures 0.0 <= m && Sq(m) == Sq(rx) + Sq(ry)
    ensures rx != 0.0 || ry != 0.0 ==> 0.0 < m && 0.0 < Sq(m)
  {
    SquareNonNegative(rx);
    SquareNonNegative(ry);
    var m := sqrt(Sq(rx) + Sq(ry));
    if rx != 0.0 then
      SquarePositive(rx);
      PositiveRoot(m, Sq(rx) + Sq(ry));
      m
    else if ry != 0.0 then
      SquarePositive(ry);
      PositiveRoot(m, Sq(rx) + Sq(ry));
      m
    else
      m
  }

  /** Negating both components leaves the magnitude unchanged. */
  lemma MagSymmetric(sqrt: real -> real, rx: real, ry: real)
    requires IsSqrt(sqrt)
    ensures Mag(sqrt, -rx, -ry) == Mag(sqrt, rx, ry)
  {
    assert Sq(-rx) == Sq(rx) && Sq(-ry) == Sq(ry);
  }

  // ---------------------------------------------------------------------------
  // Force laws
  // ---------------------------------------------------------------------------

  /** What the force laws read of a body, and what the integrator changes. */
  datatype Body = Body(pos: Vec2, vel: Vec2, acc: Vec2, mass: real, charge: real, radius: real)

  /** The vector from the source body to the target body (`rx`, `ry` in the source). */
  function Separation(source: Body, target: Body): Vec2 { Sub(target.pos, source.pos) }

  /** `r`: the distance between the two bodies. */
  function Distance(sqrt: real -> real, source: Body, target: Body): (d: real)
    requires IsSqrt(sqrt)
    ensures source.pos != target.pos ==> 0.0 < d && 0.0 < Sq(d)
  {
    Mag(sqrt, Separation(source, target).x, Separation(source, target).y)
  }

  /** Splits a force of signed size `fNet` along the unit vector (rx, ry) / r. */
  function Resolve(fNet: real, rx: real, ry: real, r: real): Vec2
    requires 0.0 < r
  {
    Vec2(fNet * (rx / r), fNet * (ry / r))
  }

  /** The resolved force is parallel to (rx, ry), and its projection on (rx, ry) is
      `fNet * r`; its own length squared is `fNet` squared. */
  lemma ResolveGeometry(fNet: real, rx: real, ry: real, r: real)
    requires 0.0 < r && Sq(r) == Sq(rx) + Sq(ry)
    ensures Cross(Resolve(fNet, rx, ry, r), Vec2(rx, ry)) == 0.0
    ensures Dot(Resolve(fNet, rx, ry, r), Vec2(rx, ry)) == fNet * r
    ensures Sq(Resolve(fNet, rx, ry, r).x) + Sq(Resolve(fNet, rx, ry, r).y) == Sq(fNet)
  {
    var u := fNet / r;
    assert u * r == fNet;
    var f := Resolve(fNet, rx, ry, r);
    assert f.x == u * rx && f.y == u * ry;
    assert u * rx * ry - u * ry * rx == 0.0;
    calc {
      Dot(f, Vec2(rx, ry));
      u * rx * rx + u * ry * ry;
      u * (Sq(rx) + Sq(ry));
      u * Sq(r);
      (u * r) * r;
      fNet * r;
    }
    calc {
      Sq(f.x) + Sq(f.y);
      (u * rx) * (u * rx) + (u * ry) * (u * ry);
      (u * u) * (Sq(rx) + Sq(ry));
      (u * u) * Sq(r);
      (u * r) * (u * r);
      Sq(fNet);
    }
  }

  /** The force of a law whose size is `strength / r ** 2`, resolved along the
      separation from `b1` to `b2`. */
  function CentralForce(sqrt: real -> real, strength: real, b1: Body, b2: Body): Vec2
    requires IsSqrt(sqrt) && b1.pos != b2.pos
  {
    var rx := b2.pos.x - b1.pos.x;
    var ry := b2.pos.y - b1.pos.y;
    var r := Mag(sqrt, rx, ry);
    Resolve(strength / Sq(r), rx, ry, r)
  }

  /** The force acts along the line of centres, and its projection on the separation,
      times the distance, is `strength`. */
  lemma CentralForceGeometry(sqrt: real -> real, strength: real, b1: Body, b2: Body)
    requires IsSqrt(sqrt) && b1.pos != b2.pos
    ensures var f := CentralForce(sqrt, strength, b1, b2);
      Cross(f, Separation(b1, b2)) == 0.0
      && Dot(f, Separation(b1, b2)) * Distance(sqrt, b1, b2) == strength
  {
    var rx := b2.pos.x - b1.pos.x;
    var ry := b2.pos.y - b1.pos.y;
    var r := Mag(sqrt, rx, ry);
    var fNet := strength / Sq(r);
    ResolveGeometry(fNet, rx, ry, r);
    assert fNet * Sq(r) == strength;
    assert (fNet * r) * r == fNet * Sq(r);
  }

  /** The closed form `strength * (rx, ry) / r ** 3`, stated without division. */
  lemma CentralForceClosedForm(sqrt: real -> real, strength: real, b1: Body, b2: Body)
    requires IsSqrt(sqrt) && b1.pos != b2.pos
    ensures var r := Distance(sqrt, b1, b2);
      Scale(CentralForce(sqrt, strength, b1, b2), Cube(r))
        == Scale(Separation(b1, b2), strength)
  {
    var r := Distance(sqrt, b1, b2);
    var rx := b2.pos.x - b1.pos.x;
    var ry := b2.pos.y - b1.pos.y;
    var fNet := strength / Sq(r);
    assert fNet * Sq(r) == strength;
    assert (rx / r) * r == rx && (ry / r) * r == ry;
    assert Cube(r) == Sq(r) * r;
    calc {
      fNet * (rx / r) * (Sq(r) * r);
      (fNet * Sq(r)) * ((rx / r) * r);
      rx * strength;
    }
    calc {
      fNet * (ry / r) * (Sq(r) * r);
      (fNet * Sq(r)) * ((ry / r) * r);
      ry * strength;
    }
  }

  lemma ResolveReversed(fNet: real, rx: real, ry: real, r: real)
    requires 0.0 < r
    ensures Resolve(fNet, -rx, -ry, r) == Neg(Resolve(fNet, rx, ry, r))
  {
    assert (-rx) / r == -(rx / r) && (-ry) / r == -(ry / r);
  }

  /** Swapping source and target, with the same strength, reverses the force. */
  lemma CentralForceAntisymmetric(sqrt: real -> real, strength: real, b1: Body, b2: Body)
    requires IsSqrt(sqrt) && b1.pos != b2.pos
    ensures CentralForce(sqrt, strength, b1, b2) == Neg(CentralForce(sqrt, strength, b2, b1))
  {
    var rx := b2.pos.x - b1.pos.x;
    var ry := b2.pos.y - b1.pos.y;
    var r := Mag(sqrt, rx, ry);
    MagSymmetric(sqrt, rx, ry);
    assert Mag(sqrt, b1.pos.x - b2.pos.x, b1.pos.y - b2.pos.y) == r;
    var fNet := strength / Sq(r);
    assert CentralForce(sqrt, strength, b1, b2) == Resolve(fNet, rx, ry, r);
    assert CentralForce(sqrt, strength, b2, b1) == Resolve(fNet, -rx, -ry, r);
    ResolveReversed(fNet, rx, ry, r);
  }

  /** The projection of the force on the separation has the sign of `strength`:
      positive pushes the target away from the source, negative pulls it closer. */
  lemma CentralForceDirection(sqrt: real -> real, strength: real, b1: Body, b2: Body)
    requires IsSqrt(sqrt) && b1.pos != b2.pos
    ensures var p := Dot(CentralForce(sqrt, strength, b1, b2), Separation(b1, b2));
      (0.0 < p <==> 0.0 < strength) && (p < 0.0 <==> strength < 0.0)
  {
    var p := Dot(CentralForce(sqrt, strength, b1, b2), Separation(b1, b2));
    var r := Distance(sqrt, b1, b2);
    CentralForceGeometry(sqrt, strength, b1, b2);
    assert p * r == strength && 0.0 < r;
    if 0.0 < p {
      assert 0.0 < p * r;
    } else if p < 0.0 {
      assert p * r < 0.0;
    }
  }

  /** The signed size of gravity times `r ** 2`: `-1 * (G * m1 * m2)`. */
  function GravityStrength(g: real, b1: Body, b2: Body): real
  {
    -(g * b1.mass * b2.mass)
  }

  /** Newtonian_Gravity: the force on `b2` exerted by `b1`. It acts along the line of
      centres, and its projection on the separation, times the distance, is
      GravityStrength, `-g * m1 * m2`. */
  function NewtonianGravity(sqrt: real -> real, g: real, b1: Body, b2: Body): (f: Vec2)
    requires IsSqrt(sqrt) && b1.pos != b2.pos
    ensures Cross(f, Separation(b1, b2)) == 0.0
    ensures Dot(f, Separation(b1, b2)) * Distance(sqrt, b1, b2) == GravityStrength(g, b1, b2)
  {
    CentralForceGeometry(sqrt, GravityStrength(g, b1, b2), b1, b2);
    CentralForce(sqrt, GravityStrength(g, b1, b2), b1, b2)
  }

  /** Gravity in closed form: `F * r ** 3 == -g * m1 * m2 * (rx, ry)`. */
  lemma GravityClosedForm(sqrt: real -> real, g: real, b1: Body, b2: Body)
    requires IsSqrt(sqrt) && b1.pos != b2.pos
    ensures var r := Distance(sqrt, b1, b2);
      Scale(NewtonianGravity(sqrt, g, b1, b2), Cube(r))
        == Scale(Separation(b1, b2), GravityStrength(g, b1, b2))
  {
    CentralForceClosedForm(sqrt, GravityStrength(g, b1, b2), b1, b2);
  }

  /** With a positive constant and positive masses the force on `b2` points from `b2`
      towards `b1`. */
  lemma GravityAttracts(sqrt: real -> real, g: real, b1: Body, b2: Body)
    requires IsSqrt(sqrt) && b1.pos != b2.pos
    requires 0.0 < g && 0.0 < b1.mass && 0.0 < b2.mass
    ensures Dot(NewtonianGravity(sqrt, g, b1, b2), Separation(b1, b2)) < 0.0
  {
    assert 0.0 < g * b1.mass;
    assert 0.0 < g * b1.mass * b2.mass;
    CentralForceDirection(sqrt, GravityStrength(g, b1, b2), b1, b2);
  }

  /** Newton's third law: the force on `b1` due to `b2` is the negation of the force on
      `b2` due to `b1`. */
  lemma GravityThirdLaw(sqrt: real -> real, g: real, b1: Body, b2: Body)
    requires IsSqrt(sqrt) && b1.pos != b2.pos
    ensures NewtonianGravity(sqrt, g, b1, b2) == Neg(NewtonianGravity(sqrt, g, b2, b1))
  {
    assert GravityStrength(g, b1, b2) == GravityStrength(g, b2, b1);
    CentralForceAntisymmetric(sqrt, GravityStrength(g, b1, b2), b1, b2);
  }

  /** The signed size of the electrostatic force times `r ** 2`: `k * q1 * q2`. */
  function CoulombStrength(k: real, b1: Body, b2: Body): real
  {
    k * b1.charge * b2.charge
  }

  /** Coulomb_Electrostatic: the force on `b2` exerted by `b1`, with the opposite sign
      convention to gravity: along the line of centres, with projection times distance
      CoulombStrength, `k * q1 * q2`. */
  function CoulombElectrostatic(sqrt: real -> real, k: real, b1: Body, b2: Body): (f: Vec2)
    requires IsSqrt(sqrt) && b1.pos != b2.pos
    ensures Cross(f, Separation(b1, b2)) == 0.0
    ensures Dot(f, Separation(b1, b2)) * Distance(sqrt, b1, b2) == CoulombStrength(k, b1, b2)
  {
    CentralForceGeometry(sqrt, CoulombStrength(k, b1, b2), b1, b2);
    CentralForce(sqrt, CoulombStrength(k, b1, b2), b1, b2)
  }

  /** Coulomb's law in closed form: `F * r ** 3 == k * q1 * q2 * (rx, ry)`. */
  lemma CoulombClosedForm(sqrt: real -> real, k: real, b1: Body, b2: Body)
    requires IsSqrt(sqrt) && b1.pos != b2.pos
    ensures var r := Distance(sqrt, b1, b2);
      Scale(CoulombElectrostatic(sqrt, k, b1, b2), Cube(r))
        == Scale(Separation(b1, b2), CoulombStrength(k, b1, b2))
  {
    CentralForceClosedForm(sqrt, CoulombStrength(k, b1, b2), b1, b2);
  }

  /** With a positive constant, like-signed charges repel (the force on `b2` points away
      from `b1`) and opposite charges attract. */
  lemma CoulombDirection(sqrt: real -> real, k: real, b1: Body, b2: Body)
    requires IsSqrt(sqrt) && b1.pos != b2.pos && 0.0 < k
    ensures var p := Dot(CoulombElectrostatic(sqrt, k, b1, b2), Separation(b1, b2));
      (0.0 < p <==> 0.0 < b1.charge * b2.charge)
      && (p < 0.0 <==> b1.charge * b2.charge < 0.0)
  {
    var q := b1.charge * b2.charge;
    assert CoulombStrength(k, b1, b2) == k * q;
    assert 0.0 < q ==> 0.0 < k * q;
    assert q < 0.0 ==> k * q < 0.0;
    assert q == 0.0 ==> k * q == 0.0;
    CentralForceDirection(sqrt, CoulombStrength(k, b1, b2), b1, b2);
  }

  /** A neutral body neither exerts nor feels an electrostatic force. */
  lemma CoulombNeutral(sqrt: real -> real, k: real, b1: Body, b2: Body)
    requires IsSqrt(sqrt) && b1.pos != b2.pos
    requires b1.charge == 0.0 || b2.charge == 0.0
    ensures CoulombElectrostatic(sqrt, k, b1, b2) == Vec2(0.0, 0.0)
  {
    assert CoulombStrength(k, b1, b2) == 0.0;
    CentralForceClosedForm(sqrt, CoulombStrength(k, b1, b2), b1, b2);
  }

  /** Newton's third law for the electrostatic force. */
  lemma CoulombThirdLaw(sqrt: real -> real, k: real, b1: Body, b2: Body)
    requires IsSqrt(sqrt) && b1.pos != b2.pos
    ensures CoulombElectrostatic(sqrt, k, b1, b2) == Neg(CoulombElectrostatic(sqrt, k, b2, b1))
  {
    assert CoulombStrength(k, b1, b2) == CoulombStrength(k, b2, b1);
    CentralForceAntisymmetric(sqrt, CoulombStrength(k, b1, b2), b1, b2);
  }

  // ---------------------------------------------------------------------------
  // Acceleration and integration, on snapshots
  // ---------------------------------------------------------------------------

  /** net_a: the acceleration becomes `F / mass`, whatever it was before, and nothing
      else about the body changes. */
  function Accelerate(s: Body, f: Vec2): (t: Body)
    requires s.mass != 0.0
    ensures Scale(t.acc, t.mass) == f
    ensures t.(acc := s.acc) == s
  {
    s.(acc := Vec2(f.x / s.mass, f.y / s.mass))
  }

  /** update(dt): one explicit Euler step. The position moves by the velocity held
      before the step, then the velocity moves by the acceleration; the acceleration,
      mass, charge and radius stay. */
  function Euler(s: Body, dt: real): (t: Body)
    ensures Sub(t.pos, s.pos) == Scale(s.vel, dt)
    ensures Sub(t.vel, s.vel) == Scale(s.acc, dt)
    ensures t.(pos := s.pos, vel := s.vel) == s
  {
    s.(pos := Add(s.pos, Scale(s.vel, dt)), vel := Add(s.vel, Scale(s.acc, dt)))
  }

  /** The step is explicit, not semi-implicit: moving the position by the updated
      velocity instead would land `acc * dt * dt` further on. */
  lemma EulerUsesOldVelocity(s: Body, dt: real)
    ensures var t := Euler(s, dt);
      Sub(Add(s.pos, Scale(t.vel, dt)), t.pos) == Scale(s.acc, dt * dt)
  {
    var t := Euler(s, dt);
    OldVelocityComponent(s.pos.x, s.vel.x, s.acc.x, dt);
    OldVelocityComponent(s.pos.y, s.vel.y, s.acc.y, dt);
  }

  lemma OldVelocityComponent(p: real, v: real, a: real, dt: real)
    ensures (p + (v + a * dt) * dt) - (p + v * dt) == a * (dt * dt)
  {
    calc {
      (p + (v + a * dt) * dt) - (p + v * dt);
      (v + a * dt) * dt - v * dt;
      a * (dt * dt);
    }
  }

  /** `n` successive updates with the same time step. */
  function EulerSteps(s: Body, dt: real, n: nat): Body
  {
    if n == 0 then s else Euler(EulerSteps(s, dt, n - 1), dt)
  }

  /** `n` as a real number, counted up one step at a time. `CountTriangle` shows it
      equals `n as real`; the recursive form is what the induction in
      `EulerStepsClosedForm` unfolds: its step `Count(n) == Count(n - 1) + 1.0` is a
      single function unfolding, and the coefficients stay function terms the
      solver matches as a whole instead of products over a conversion. */
  function Count(n: nat): real
  {
    if n == 0 then 0.0 else Count(n - 1) + 1.0
  }

  /** `0 + 1 + ... + (n - 1)` as a real number. */
  function Triangle(n: nat): real
  {
    if n == 0 then 0.0 else Triangle(n - 1) + Count(n - 1)
  }

  lemma {:induction false} CountTriangle(n: nat)
    ensures Count(n) == n as real
    ensures 2.0 * Triangle(n) == Count(n) * (Count(n) - 1.0)
  {
    if n > 0 {
      CountTriangle(n - 1);
      var c := Count(n - 1);
      calc {
        2.0 * Triangle(n);
        2.0 * Triangle(n - 1) + 2.0 * c;
        c * (c - 1.0) + 2.0 * c;
        (c + 1.0) * c;
        Count(n) * (Count(n) - 1.0);
      }
    }
  }

  /** Under a constant acceleration, `n` updates add `n` times the per-step velocity
      change `acc*dt` to the velocity, and move the position by `n` times `vel*dt`
      plus `Triangle(n)` times `acc*dt*dt`, where `Triangle(n) = n*(n-1)/2`: the
      explicit scheme lags the exact `n*n/2` by `n/2` steps. */
  lemma {:induction false} EulerStepsClosedForm(s: Body, dt: real, n: nat)
    ensures var t := EulerSteps(s, dt, n);
      t.acc == s.acc
      && t.vel == Add(s.vel, Scale(Scale(s.acc, dt), Count(n)))
      && t.pos == Add(Add(s.pos, Scale(Scale(s.vel, dt), Count(n))),
                      Scale(Scale(s.acc, dt * dt), Triangle(n)))
  {
    if n == 0 {
      ScaleZero(s.vel, Scale(s.acc, dt));
      ScaleZero(s.pos, Scale(s.vel, dt));
      ScaleZero(s.pos, Scale(s.acc, dt * dt));
    } else {
      var k: nat := n - 1;
      EulerStepsClosedForm(s, dt, k);
      EulerStepAlgebra(s, EulerSteps(s, dt, k), dt, Count(k), Triangle(k), Count(n), Triangle(n));
    }
  }

  /** The inductive step of EulerStepsClosedForm: one more update adds one to the
      step count and `m` to the triangular coefficient. */
  lemma EulerStepAlgebra(s: Body, u: Body, dt: real, m: real, tri: real, m': real, tri': real)
    requires m' == m + 1.0 && tri' == tri + m
    requires u.acc == s.acc
    requires u.vel == Add(s.vel, Scale(Scale(s.acc, dt), m))
    requires u.pos == Add(Add(s.pos, Scale(Scale(s.vel, dt), m)), Scale(Scale(s.acc, dt * dt), tri))
    ensures var t := Euler(u, dt);
      t.acc == s.acc
      && t.vel == Add(s.vel, Scale(Scale(s.acc, dt), m'))
      && t.pos == Add(Add(s.pos, Scale(Scale(s.vel, dt), m')), Scale(Scale(s.acc, dt * dt), tri'))
  {
    var t := Euler(u, dt);
    var dp, dv, dd := Scale(s.vel, dt), Scale(s.acc, dt), Scale(s.acc, dt * dt);
    calc {
      t.vel;
      Add(Add(s.vel, Scale(dv, m)), dv);
      { AddAssoc(s.vel, Scale(dv, m), dv); }
      Add(s.vel, Add(Scale(dv, m), dv));
      { ScaleSucc(dv, m); }
      Add(s.vel, Scale(dv, m'));
    }
    calc {
      t.pos;
      Add(u.pos, Scale(Add(s.vel, Scale(dv, m)), dt));
      { ScaleAdd(s.vel, Scale(dv, m), dt);
        ScaleTwice(s.acc, dt, m); }
      Add(Add(Add(s.pos, Scale(dp, m)), Scale(dd, tri)), Add(dp, Scale(dd, m)));
      { Regroup(s.pos, Scale(dp, m), Scale(dd, tri), dp, Scale(dd, m)); }
      Add(Add(s.pos, Add(Scale(dp, m), dp)), Add(Scale(dd, tri), Scale(dd, m)));
      { ScaleSucc(dp, m);
        ScaleSum(dd, tri, m); }
      Add(Add(s.pos, Scale(dp, m')), Scale(dd, tri'));
    }
  }

  // ---------------------------------------------------------------------------
  // PhysicsBody
  // ---------------------------------------------------------------------------

  /** A body of the simulation. The force laws and the integrator read it through
      State(), a snapshot of the fields that take part in the physics. */
  class PhysicsBody {
    var name: string
    var velX: real
    var velY: real
    var posX: real
    var posY: real
    var ax: real
    var ay: real
    var radius: real
    var charge: real
    var mass: real
    var color: string

    function State(): Body
      reads this
    {
      Body(Vec2(posX, posY), Vec2(velX, velY), Vec2(ax, ay), mass, charge, radius)
    }

    /** Every argument lands in its own field; the body starts without acceleration. */
    constructor(name: string, velX: real, velY: real, posX: real, posY: real,
                radius: real, charge: real, mass: real, color: string)
      ensures this.name == name && this.color == color
      ensures State() == Body(Vec2(posX, posY), Vec2(velX, velY), Vec2(0.0, 0.0), mass, charge, radius)
    {
      this.name := name;
      this.velX := velX;
      this.velY := velY;
      this.posX := posX;
      this.posY := posY;
      ax := 0.0;
      ay := 0.0;
      this.radius := radius;
      this.charge := charge;
      this.mass := mass;
      this.color := color;
    }

    /** net_f: the gravitational plus electrostatic force that `b1` exerts on this
        body. It lies on the line of centres, and its projection on the separation,
        times the distance, is `-G*m1*m2 + k*q1*q2`. */
    function NetForce(sqrt: real -> real, b1: PhysicsBody): (f: Vec2)
      requires IsSqrt(sqrt) && b1.State().pos != State().pos
      reads this, b1
      ensures Cross(f, Separation(b1.State(), State())) == 0.0
      ensures Dot(f, Separation(b1.State(), State())) * Distance(sqrt, b1.State(), State())
        == GravityStrength(G, b1.State(), State()) + CoulombStrength(K, b1.State(), State())
    {
      var fg := NewtonianGravity(sqrt, G, b1.State(), State());
      var fc := CoulombElectrostatic(sqrt, K, b1.State(), State());
      LinearInForce(fg, fc, Separation(b1.State(), State()), Distance(sqrt, b1.State(), State()));
      Add(fg, fc)
    }

    /** net_a: the acceleration becomes `F / mass`; nothing else changes. */
    method NetAcceleration(f: Vec2)
      requires mass != 0.0
      modifies this`ax, this`ay
      ensures State() == Accelerate(old(State()), f)
    {
      ax := f.x / mass;
      ay := f.y / mass;
    }

    /** update: the position moves with the velocity it had before the call, then the
        velocity moves with the acceleration. */
    method Update(dt: real)
      modifies this`posX, this`posY, this`velX, this`velY
      ensures State() == Euler(old(State()), dt)
    {
      var dPosX := velX * dt;
      posX := posX + dPosX;
      var dPosY := velY * dt;
      posY := posY + dPosY;
      var dVelX := ax * dt;
      velX := velX + dVelX;
      var dVelY := ay * dt;
      velY := velY + dVelY;
    }
  }

  /** net_f in closed form: `F * r ** 3 == (-G*m1*m2 + k*q1*q2) * (rx, ry)`, with
      (rx, ry) running from `b1` to the target. */
  lemma NetForceClosedForm(sqrt: real -> real, target: PhysicsBody, b1: PhysicsBody)
    requires IsSqrt(sqrt) && b1.State().pos != target.State().pos
    ensures var s1, s2 := b1.State(), target.State();
      var r := Distance(sqrt, s1, s2);
      Scale(target.NetForce(sqrt, b1), Cube(r))
        == Scale(Separation(s1, s2), GravityStrength(G, s1, s2) + CoulombStrength(K, s1, s2))
  {
    var s1, s2 := b1.State(), target.State();
    var c := Cube(Distance(sqrt, s1, s2));
    var fg, fc := NewtonianGravity(sqrt, G, s1, s2), CoulombElectrostatic(sqrt, K, s1, s2);
    calc {
      Scale(target.NetForce(sqrt, b1), c);
      Scale(Add(fg, fc), c);
      { ScaleAdd(fg, fc, c); }
      Add(Scale(fg, c), Scale(fc, c));
      { GravityClosedForm(sqrt, G, s1, s2);
        CoulombClosedForm(sqrt, K, s1, s2); }
      Add(Scale(Separation(s1, s2), GravityStrength(G, s1, s2)),
          Scale(Separation(s1, s2), CoulombStrength(K, s1, s2)));
      { ScaleSum(Separation(s1, s2), GravityStrength(G, s1, s2), CoulombStrength(K, s1, s2)); }
      Scale(Separation(s1, s2), GravityStrength(G, s1, s2) + CoulombStrength(K, s1, s2));
    }
  }

  /** If either body is neutral, net_f is gravity alone. */
  lemma NetForceNeutral(sqrt: real -> real, target: PhysicsBody, b1: PhysicsBody)
    requires IsSqrt(sqrt) && b1.State().pos != target.State().pos
    requires b1.charge == 0.0 || target.charge == 0.0
    ensures target.NetForce(sqrt, b1) == NewtonianGravity(sqrt, G, b1.State(), target.State())
  {
    CoulombNeutral(sqrt, K, b1.State(), target.State());
  }

  /** Newton's third law for net_f: what `a` feels from `b` is the negation of what `b`
      feels from `a`. */
  lemma NetForceThirdLaw(sqrt: real -> real, a: PhysicsBody, b: PhysicsBody)
    requires IsSqrt(sqrt) && a.State().pos != b.State().pos
    ensures a.NetForce(sqrt, b) == Neg(b.NetForce(sqrt, a))
  {
    GravityThirdLaw(sqrt, G, b.State(), a.State());
    CoulombThirdLaw(sqrt, K, b.State(), a.State());
  }
}
