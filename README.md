# Physics-Sim core in Dafny

A model of the physics core of Physics-Sim, a two-body simulator written in JavaScript.

- `src/physics.js` provides `mag`, the two central-force laws `Newtonian_Gravity` and `Coulomb_Electrostatic`, and the class `PhysicsBody`.
- `PhysicsBody` has the constructor, `net_f`, `net_a` and `update`. These compute forces, set accelerations and take one explicit Euler step.
- The physics part of `updatePositions` in `src/App.js` (lines 27-34) computes the gravity each body exerts on the other from the positions before the tick, sets both accelerations and updates both bodies with `del_t = 0.2`. As written, the collision phase before it cannot run (see "Left out"), so the model takes the tick as if that phase were absent.

The model is split into two modules.

- `physics.dfy` (module `Physics`):
  - Value snapshots `Vec2` and `Body`.
  - The force laws as functions on snapshots.
  - `Accelerate` and `Euler`: specification functions for `net_a` and `update`.
  - The class `PhysicsBody`. Its fields are the JavaScript object's properties. Its methods `NetAcceleration` and `Update` change exactly the fields the source assigns. Each is proved to leave the object in the state the matching specification function computes from the old snapshot `State()`.
- `app.dfy` (module `App`):
  - The initial bodies.
  - `Tick`, a function on the two snapshots.
  - `Step`, a method on the two objects. It performs the source's six calls in order and is proved to agree with `Tick`.
  - Lemmas about what a tick does.

Arithmetic is over exact reals. `Math.sqrt` is a parameter `sqrt` of every operation that needs it. The predicate `IsSqrt(sqrt)` is its only assumption: a non-negative root of every non-negative number. `SqrtDetermined` shows that all such functions agree, so no result depends on which one is passed.

Some contracts use `GravityStrength(g, b1, b2) = -(g * m1 * m2)` and `CoulombStrength(k, b1, b2) = k * q1 * q2`. Each is the signed size of its force times `r ** 2`.

## Model

| member | source | states |
|---|---|---|
| Physics.Mag | src/physics.js:4-9 | the magnitude is non-negative, its square is `rx² + ry²`, and it is positive when the vector is non-zero |
| Physics.MagSymmetric | src/physics.js:4-9 | negating both components leaves the magnitude unchanged |
| Physics.SqrtDetermined | src/physics.js:8 | any two functions that return non-negative square roots agree, so the model does not depend on the choice of `Math.sqrt` |
| Physics.Distance | src/physics.js:16-18 | the distance `r` between two bodies at different positions is positive, and so is its square |
| Physics.ResolveGeometry | src/physics.js:21-22 | `(F_net * rx / r, F_net * ry / r)` is parallel to `(rx, ry)`, its projection on it is `F_net * r`, and its squared length is `F_net²` |
| Physics.CentralForceGeometry | src/physics.js:16-22 | a force of size `strength / r²`, resolved along the separation, is parallel to it, and its projection times `r` is `strength` |
| Physics.CentralForceClosedForm | src/physics.js:16-22 | that force times `r³` equals `strength * (rx, ry)` |
| Physics.CentralForceAntisymmetric | src/physics.js:16-22 | swapping source and target with the same strength negates the force |
| Physics.CentralForceDirection | src/physics.js:16-22 | the projection of the force on the separation is positive exactly when `strength` is positive, and negative exactly when it is negative |
| Physics.NewtonianGravity | src/physics.js:11-25 | the gravity on `b2` due to `b1` lies on the line of centres, and its projection on `(rx, ry)` times `r` is `-(G * m1 * m2)` |
| Physics.GravityClosedForm | src/physics.js:16-22 | gravity times `r³` equals `-(G * m1 * m2) * (rx, ry)` |
| Physics.GravityAttracts | src/physics.js:20-22 | with positive `G` and positive masses the force on `b2` points towards `b1`: `Fx * rx + Fy * ry < 0` |
| Physics.GravityThirdLaw | src/physics.js:16-24 | `Newtonian_Gravity(G, b1, b2)` is the componentwise negation of `Newtonian_Gravity(G, b2, b1)` |
| Physics.CoulombElectrostatic | src/physics.js:27-41 | the electrostatic force on `b2` lies on the line of centres, and its projection on `(rx, ry)` times `r` is `k * q1 * q2` |
| Physics.CoulombClosedForm | src/physics.js:32-38 | the force times `r³` equals `k * q1 * q2 * (rx, ry)` |
| Physics.CoulombDirection | src/physics.js:36-38 | with `k > 0`, the force points along `(rx, ry)` exactly when `q1 * q2 > 0` (repulsion), and against it exactly when `q1 * q2 < 0` (attraction) |
| Physics.CoulombNeutral | src/physics.js:36-38 | a zero charge on either body gives the zero force |
| Physics.CoulombThirdLaw | src/physics.js:32-40 | swapping the bodies negates the electrostatic force |
| Physics.PhysicsBody.constructor | src/physics.js:44-56 | every argument is stored in its own field, and the acceleration starts at `(0, 0)` |
| Physics.PhysicsBody.NetForce | src/physics.js:58-68 | `net_f(b1)` reads the two bodies and changes nothing; the force lies on the line of centres, and its projection times `r` is `-(G * m1 * m2) + k * q1 * q2` |
| Physics.NetForceClosedForm | src/physics.js:58-68 | `net_f(b1)` times `r³` is `(-(G * m1 * m2) + k * q1 * q2) * (rx, ry)`, the sum of the two laws' closed forms |
| Physics.NetForceNeutral | src/physics.js:58-68 | if either body has no charge, `net_f` is gravity alone |
| Physics.NetForceThirdLaw | src/physics.js:58-68 | the net force `a` feels from `b` is the negation of the one `b` feels from `a` |
| Physics.Accelerate | src/physics.js:70-77 | after `net_a(F)`, mass times acceleration is `F` whatever the old acceleration was, and every other quantity of the body is unchanged |
| Physics.PhysicsBody.NetAcceleration | src/physics.js:70-77 | the method changes only `a_x` and `a_y`, and leaves the state that `Accelerate` computes from the old state |
| Physics.Euler | src/physics.js:79-94 | `update(dt)` moves the position by the old velocity times `dt` and the velocity by the acceleration times `dt`; acceleration, mass, charge and radius stay |
| Physics.PhysicsBody.Update | src/physics.js:79-94 | the method changes only the position and velocity fields, and leaves the state that `Euler` computes from the old state |
| Physics.EulerUsesOldVelocity | src/physics.js:83-93 | the position moves with the pre-update velocity: moving it with the new velocity would land exactly `acc * dt²` further on |
| Physics.EulerStepsClosedForm | src/physics.js:79-94 | `n` updates under a constant acceleration give `vel + n * acc * dt` and `pos + n * vel * dt + (n(n-1)/2) * acc * dt²` |
| App.InitialBodies | src/App.js:10-11 | body1 starts at (700, 600) with velocity (-20, -20), body2 at (500, 400) at rest; both have radius 10, charge 0 and mass 10, with names and colours as given |
| App.Tick | src/App.js:27-34 | one tick keeps each body's mass, charge and radius |
| App.Step | src/App.js:27-34 | the two objects end in the states `Tick` computes from their states before the tick, both forces coming from pre-tick positions; names and colours stay |
| App.TickAccelerations | src/App.js:27-31 | after a tick, each body's mass times acceleration is the gravity from the other body, and the two are exact negations |
| App.TickPositions | src/App.js:33-34 | each position moves by its pre-tick velocity times `del_t` |
| App.TickVelocities | src/App.js:30-34 | each velocity moves by the acceleration just set from the other body's gravity, times `del_t` |
| App.TickConservesMomentum | src/App.js:27-34 | the total momentum `m1 * v1 + m2 * v2` is the same after a tick |
| App.TickCentreOfMass | src/App.js:27-34 | `m1 * p1 + m2 * p2` moves by the total momentum times `del_t` |
| App.TickIgnoresCharge | src/App.js:27-31 | changing the charges changes nothing else in a tick: charge never affects the trajectory |
| App.TickAttracts | src/App.js:27-34 | with positive masses, each body's velocity change in a tick points towards the other body |

## Left out

- Collision handling is not part of this model. `src/App.js:3` imports `collision` and `detect_collision`, and lines 23-25 call them, but `src/physics.js` neither defines nor exports them (its export list is line 97). As written, the import does not link as a native ES module. Under a bundler that lets it through, `detect_collision` is undefined and the call at `src/App.js:23` throws. Either way, lines 27-34 are never reached. `App.Step` and `App.Tick` model the tick as if the collision phase were absent.
- The React component is not modelled: `useRef`, `useState` and `useEffect`, `setPositions`, the `setTimeout` re-scheduling and the SVG rendering (`src/App.js:15-20`, `36-70`). The model's `Step` is one call of the physics part of `updatePositions`.
- IEEE-754 doubles become exact reals. The code's NaN and Infinity paths become preconditions, because the code never rejects these cases:
  - Coincident bodies (`r = 0` in `src/physics.js:20-22`). The force laws, `NetForce`, `Tick` and `Step` require distinct positions.
  - A zero mass (`src/physics.js:75-76`). `Accelerate`, `NetAcceleration`, `Tick` and `Step` require a non-zero mass.
- The constructor (`src/physics.js:44-56`) accepts any mass, including zero or negative ones, and nothing rejects coincident bodies. The model has no error results for these cases either.
- `Math.sqrt` is a foreign call. It is a parameter constrained by `IsSqrt`.
- `src/App.js:5` declares its own `G` with the same value as `src/physics.js:1`. The model uses `Physics.G` for both.
- `name` and `color` are only stored, and the model only carries them along.
