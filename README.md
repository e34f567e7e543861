# Bouncing balls: the physics core, in Dafny

`bouncing_balls.py` simulates solid spheres that fall under gravity inside a
box, bounce off its walls and collide with each other, one fixed time step
(`tick`) at a time. This project models its physics core and proves what that
core guarantees:

- `vectors.dfy` (module `Vectors`): three-component real vectors with the
  numpy operations the core uses. The Euclidean norm is a parameter
  `norm: Vec -> real`, and `IsNorm` pins down what it computes: a
  non-negative value whose square is `v . v`.
- `physics.dfy` (module `Physics`): the rules of `PhysicalBody` as functions
  on a value snapshot `BodyState` of one body. The rules covered are contact,
  gravity, motion, wall response, pair response and the pairwise loop of
  `resolve_obj_collisions` (`ResolveUpTo`). The same file holds the lemmas
  about these rules: contact symmetry, containment, momentum conservation,
  the normal and tangential speeds after a response, and the guard on the
  handled list.
- `bodies.dfy` (module `Bodies`): `Body3D` as a class `Body` whose methods
  update `pos`, `speed` and `handled` in place. Each method is proved
  against the value-level rule. The class-wide `Body3D.index_counter` is an
  explicit `IndexCounter` object.
- `simulation.dfy` (module `Simulation`): `World` as a class.
  - Its constructor builds one body per descriptor.
  - `Tick` runs the gravity pass over every body first. It then runs the
    second pass, where each body in turn moves, bounces off the walls and is
    resolved against all bodies.
  - Both are proved against value-level functions: `Launch` for the
    constructor, and `GravityPass`, `StepBody` and `PassUpTo` (`TickSpec`)
    for `Tick`.
- `placement.dfy` (module `Placement`): the acceptance rule of
  `randomize_balls`. A drawn ball is kept only when it touches no ball kept
  before it.

Two facts about the code as written shape the model.

- The pair response scales the relative normal speed by the factor
  `1 - 2 * (1 - DAMPING_FACTOR)`. With `DAMPING_FACTOR = 0.5` this factor is
  0, so the two bodies leave a collision with equal speeds along the normal.
  The wall response behaves differently (bouncing_balls.py:110, 114): it
  reverses a speed component and scales it by `1 - DAMPING_FACTOR`. The pair
  response leaves no relative normal speed at all. The model states the
  pair response as written (`Physics.RespondRelativeNormalSpeed`).
- The `handled_collisions` guard is meant to resolve each pair at most once
  per tick, but within a tick it never fires. `update_pos` empties a body's
  list just before that body's loop runs, and the loop only adds indices of
  bodies it has already passed. So a pair that is still in contact is
  resolved once from each side. The model keeps the guard as written and
  proves that it never fires (`Physics.GuardNeverFires`,
  `Simulation.TickGuardNeverFires`). It does not prove at-most-once
  resolution.

A body is checked for contact with the bodies after it at their positions from before
this tick's moves, because those bodies have not moved yet
(`Simulation.PassLeavesLaterUnmoved`).

## Model

| member | source | states |
|---|---|---|
| Vectors.IsNorm | bouncing_balls.py:76-77 | what `np.linalg.norm` computes: zero on the zero vector only, positive elsewhere, and its square is the vector's dot product with itself |
| Physics.Contact | bouncing_balls.py:75-78 | two spheres touch when the sum of their sizes is positive and the squared distance between the centres is below the square of that sum |
| Physics.ContactIffDistanceBelow | bouncing_balls.py:75-78 | for any radii, the square-free `Contact` holds exactly when the centre distance is strictly below the sum of the sizes |
| Physics.ContactSymmetric | bouncing_balls.py:75-78 | whether two spheres touch does not depend on which of them asks |
| Physics.Accelerated | bouncing_balls.py:82-83 | one tick of gravity changes only the y component of the speed, by -0.7 (TIME_TICK 0.1 times GRAVITY_CONST 7) |
| Physics.Moved | bouncing_balls.py:98-100 | each position component advances by 0.1 times the speed component; the speed is unchanged and the handled list is emptied |
| Physics.WallAxis | bouncing_balls.py:107-115 | per axis: a sphere already inside is left alone; one that pokes out has its speed component reversed and halved, and is clamped 0.1 clear of the wall it crossed (lower wall first); a limit with room leaves the sphere inside |
| Physics.WalledUpTo | bouncing_balls.py:108-115 | after the first k axes of the wall loop, those axes have had the one-axis response and the rest are untouched |
| Physics.Walled | bouncing_balls.py:107-115 | every axis whose limit has room ends inside, an axis already inside is untouched, and mass, size, list and index are kept |
| Physics.WalledInsideCavity | bouncing_balls.py:31 | a body that fits the SPACE_LIMITS box on every axis ends inside the box after the wall response |
| Physics.Respond | bouncing_balls.py:123-135 | the pair response moves only the body being resolved, by 0.3 along the direction, and each body records the other's index |
| Physics.Gain | bouncing_balls.py:130-131 | the speed change along the direction for one body: (partner's normal speed minus its own) times (1 - DAMPING_FACTOR) times twice the partner's mass over the total mass |
| Physics.RespondConservesMomentum | bouncing_balls.py:130-131 | the pair response conserves the mass-weighted sum of the two speeds, for any direction |
| Physics.RespondKeepsTangential | bouncing_balls.py:130-131 | every speed component orthogonal to the direction is unchanged on both bodies |
| Physics.RespondRelativeNormalSpeed | bouncing_balls.py:125-131 | along a unit direction, the relative speed is scaled by 1 - 2 * (1 - DAMPING_FACTOR), so the two normal speeds end equal |
| Physics.RespondDissipatesNormalEnergy | bouncing_balls.py:125-131 | for positive masses, the kinetic energy along the normal never grows |
| Physics.Normal | bouncing_balls.py:123-124 | the direction from the other body's centre to this one's, divided by its norm |
| Physics.Collide | bouncing_balls.py:123-135 | the response along `Normal` once a contact is found; None where `resolve_obj_collisions` divides by zero (a zero-length direction or masses summing to zero) |
| Physics.CollideFailsIff | bouncing_balls.py:123-131 | the response is undefined (a division by zero) exactly when the centres coincide or the masses sum to zero |
| Physics.NormalIsUnit | bouncing_balls.py:123-124 | between distinct centres the normalized direction has length one |
| Physics.CollideOutcome | bouncing_balls.py:123-135 | a defined collision leaves equal normal speeds and conserves momentum |
| Physics.CollideKeepsBodies | bouncing_balls.py:123-135 | a collision keeps mass, size and index, does not move the other body, and appends each index to the other's list |
| Physics.CollideConservesMomentum | bouncing_balls.py:130-131 | every defined collision conserves the pair's momentum |
| Physics.ResolveOne | bouncing_balls.py:121-135 | one iteration of the pairwise loop: no change at the body itself, at a body it does not touch, or at one already in its handled list; otherwise both bodies take the `Collide` result; None when that divides by zero |
| Physics.ResolveUpTo | bouncing_balls.py:119-135 | the states after the first j iterations of the pairwise loop, in order, failing as soon as one iteration fails; the number of bodies is kept |
| Physics.ResolveKeepsBodies | bouncing_balls.py:119-135 | the pairwise loop keeps the number of bodies and each body's mass, size and index |
| Physics.ResolvePrefixDefined | bouncing_balls.py:119-135 | a loop that completes without dividing by zero completes each of its prefixes |
| Physics.ResolveNext | bouncing_balls.py:120-135 | iteration j takes the state after j iterations to the state after j + 1 |
| Physics.ResolveMovesOnlySelf | bouncing_balls.py:133 | the pairwise loop moves no body except the one being resolved |
| Physics.ResolveOneConservesMomentum | bouncing_balls.py:121-135 | one iteration conserves the total momentum of all bodies on each axis |
| Physics.ResolveConservesMomentum | bouncing_balls.py:119-135 | the whole pairwise loop conserves the total momentum of all bodies on each axis |
| Physics.HandledOnlyVisited | bouncing_balls.py:134-135 | during the loop, the resolved body's list only gains indices of bodies already visited |
| Physics.GuardNeverFires | bouncing_balls.py:122 | for a body whose list starts empty and distinct indices, the `not in handled_collisions` test is true at every body the loop reaches |
| Bodies.IndexCounter.constructor | bouncing_balls.py:140 | the class-wide counter starts at 0 |
| Bodies.Body.constructor | bouncing_balls.py:142-149 | a new body has the given mass, size, position and speed and an empty list; it takes the counter's value as its index and increments the counter |
| Bodies.Body.IsTouching | bouncing_balls.py:75-78 | true exactly when the sphere touches this body |
| Bodies.Body.GetCollisions | bouncing_balls.py:86-94 | returns exactly the positions of the other bodies this one touches, strictly increasing |
| Bodies.Body.UpdateVelocity | bouncing_balls.py:82-83 | the new state is the old one with the accelerated speed; nothing else changes |
| Bodies.Body.UpdatePos | bouncing_balls.py:98-100 | the new state is `Moved` of the old one |
| Bodies.Body.ResolveWallCollisions | bouncing_balls.py:107-115 | the new state is `Walled` of the old one |
| Bodies.Body.RespondTo | bouncing_balls.py:123-135 | the two bodies' new states are `Respond` of their old states |
| Bodies.Body.ResolveObjCollisions | bouncing_balls.py:119-135 | all bodies involved end in the state the pairwise loop `ResolveUpTo` gives from their old states |
| Bodies.Body.ResolveLoop | bouncing_balls.py:120-135 | the first n iterations of the loop leave the states `ResolveUpTo` gives |
| Bodies.Body.ResolveStep | bouncing_balls.py:121-135 | one iteration leaves the states `ResolveOne` gives |
| Bodies.Body.Meet | bouncing_balls.py:123-135 | the two bodies of a collision take the states `Collide` gives; every other body is unchanged |
| Simulation.Launched | bouncing_balls.py:201-204 | a descriptor makes a body with its mass, size and position, its initial velocity or else zero speed, an empty list and the given index |
| Simulation.Launch | bouncing_balls.py:199-205 | descriptors make one body each, in order, with consecutive indices |
| Simulation.LaunchDistinct | bouncing_balls.py:148-149 | no two bodies of a world share an index |
| Simulation.Fell | bouncing_balls.py:82-83 | one body after `update_velocity`: its speed is `Accelerated`, everything else is unchanged |
| Simulation.GravityPass | bouncing_balls.py:225-226 | every body's y speed drops by 0.7; everything else is unchanged |
| Simulation.StepBody | bouncing_balls.py:231-234 | the body at k moves (`Moved`), bounces off SPACE_LIMITS (`Walled`), then runs its pairwise loop over all bodies; the number of bodies is kept |
| Simulation.PassUpTo | bouncing_balls.py:230-234 | the states after the first k iterations of the second loop of a tick, failing as soon as one iteration fails; the number of bodies is kept |
| Simulation.TickSpec | bouncing_balls.py:223-234 | a whole tick on values: the gravity pass over every body, then the second loop over all of them |
| Simulation.PassStep | bouncing_balls.py:230-234 | iteration k of the second pass moves body k, applies the wall response, then runs body k's pairwise loop |
| Simulation.PassPrefixDefined | bouncing_balls.py:230-234 | a second pass that completes completes each of its prefixes |
| Simulation.PassKeepsBodies | bouncing_balls.py:230-234 | the second pass keeps every body's mass, size and index |
| Simulation.PassLeavesLaterUnmoved | bouncing_balls.py:230-234 | bodies the second pass has not reached are still at their positions from before the pass |
| Simulation.TickGuardNeverFires | bouncing_balls.py:122 | inside a tick, the handled guard is true at every body a body's loop reaches |
| Simulation.TickKeepsBodies | bouncing_balls.py:223-234 | a whole tick keeps every body's mass, size and index |
| Simulation.World.constructor | bouncing_balls.py:196-205 | the world starts at tick 0, with one new body per descriptor in order (`Launch`), indices increasing from the counter |
| Simulation.World.Tick | bouncing_balls.py:223-234 | the tick count goes up by one, the list of bodies is unchanged, and the new states are the gravity pass followed by the second pass (`TickSpec`) |
| Simulation.World.Fall | bouncing_balls.py:225-226 | the new states are `GravityPass` of the old ones |
| Simulation.World.Advance | bouncing_balls.py:230-234 | the new states are the second pass over the old ones |
| Simulation.World.Step | bouncing_balls.py:231-234 | one iteration of the second pass leaves the states `PassUpTo` gives for one more body |
| Simulation.World.ResolveBody | bouncing_balls.py:234 | the states after resolving body k are its pairwise loop `ResolveUpTo` over all bodies |
| Simulation.World.Prepare | bouncing_balls.py:231-233 | body k is moved and bounced off the walls; the others are unchanged |
| Placement.Ball | bouncing_balls.py:45-49 | the ball a draw describes: its size, position and initial velocity, with mass its size cubed |
| Placement.Touches | bouncing_balls.py:52-57 | a ball touches one of the kept balls: the centre distance is below the sum of the sizes |
| Placement.Admitted | bouncing_balls.py:44-60 | the balls kept from a sequence of draws taken in order: each draw is appended when it touches none of the balls kept before it, and dropped otherwise |
| Placement.AdmittedSeparated | bouncing_balls.py:42-62 | the kept balls pairwise do not touch, each is one of the draws with mass its size cubed, and there are no more of them than draws |
| Placement.AppendSeparated | bouncing_balls.py:59-60 | a ball that touches none of a separated set keeps it separated |
| Placement.RandomizeBalls | bouncing_balls.py:42-62 | draws are tried in order until `count` balls are kept or the draws run out; the kept balls are exactly the admitted ones of the draws tried, and they are pairwise apart, drawn and solid |
| Placement.TouchesAny | bouncing_balls.py:52-57 | true exactly when the ball touches one of the kept balls |

## Left out

- Rendering, the window, lighting and textures are not modelled: `GraphObject` drawing, `World.draw`, `__setup_textures` and the `texture` key of a descriptor.
- `GraphObject.update_rot` changes the drawing rotation, which the model does not keep. Its random colours are not modelled either.
- Randomness is a parameter. `randomize_balls` is given its draws as a finite sequence of candidates, so it also stops when they run out. `randomize_balls` itself loops for as long as it takes.
- `kick` is not modelled, because it is commented out of `tick`.
- The value `tick` returns (the position of body 2) is not modelled. Neither is the IndexError that line 236 raises when the world has fewer than three bodies, after every body has already been updated.
- Floating point is not modelled: arithmetic is exact over the reals, and the square root is the `norm` parameter constrained by `IsNorm`.
- The model assumes the numpy arrays hold floats. A body built from integer positions would truncate or reject the in-place float updates of the wall and pair responses.
- `PhysicalBody.__init__` is not modelled: `Body3D` overrides it, and the model starts bodies with an empty handled list.
- The default `pos` and `speed` arguments of `Body3D.__init__` are not modelled: every caller passes them.
- Bodies.Body.ResolveObjCollisions: requires that no body is listed twice. A list with repeated bodies is not modelled.
- Bodies.Body.ResolveObjCollisions: requires that no collision divides by zero (coincident centres or masses summing to zero). `resolve_obj_collisions` would write a NaN or raise at that point. The functions return `None` for it, and `Physics.CollideFailsIff` characterises the case.
- Simulation.World.Tick: requires every body's size to be non-zero. `update_rot` divides by the size (line 192), and `tick` calls it for every body (line 232), so a body of size 0 raises ZeroDivisionError partway through the second loop. That happens after the body's `update_pos` and before its wall and pair resolution. The model does not reproduce that partial tick.
- Simulation.World.Tick: requires that no collision in the tick divides by zero, for the same reason. It also requires the bodies to be listed in increasing order of index, which every world built by the constructor satisfies.
- Ghost parameters `collide` and `step` are not in bouncing_balls.py. They stand for the collision response and the iteration of the second pass, and they let the loops be proved.
- At-most-once resolution of a pair per tick is not proved, because the code does not achieve it (see above).
