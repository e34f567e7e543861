/** The world of bouncing_balls.py: the bodies built from their descriptors,
    and one tick of the simulation, first on values and then on the `World`
    object that runs it in place. */
module Simulation {
  import opened Vectors
  import opened Physics
  import opened Bodies

  /** One entry of the world description: a body's mass, size, position and,
      optionally, its initial velocity. */
  datatype Descriptor = Descriptor(mass: real, size: real, pos: Vec, initVel: Option<Vec>)

  /** The body a descriptor makes, with the given index: it starts with the
      initial velocity when there is one and at rest otherwise, and with
      nothing handled. */
  function Launched(d: Descriptor, index: int): (r: BodyState)
    ensures d.initVel.Some? ==> r.speed == d.initVel.value
    ensures d.initVel.None? ==> r.speed == Zero
    ensures r.mass == d.mass && r.size == d.size && r.pos == d.pos
    ensures r.handled == [] && r.index == index
  {
    BodyState(d.mass, d.size, d.pos, if d.initVel.Some? then d.initVel.value else Zero, [], index)
  }

  /** The bodies made from `ds` in order, numbered from `first` on. */
  function Launch(ds: seq<Descriptor>, first: int): (r: seq<BodyState>)
    ensures |r| == |ds|
    ensures forall i :: 0 <= i < |ds| ==> r[i] == Launched(ds[i], first + i)
  {
    if ds == [] then [] else [Launched(ds[0], first)] + Launch(ds[1..], first + 1)
  }

  /** A launched world has one body per descriptor and no two bodies share an
      index, whatever the counter started at. */
  lemma {:induction false} LaunchDistinct(ds: seq<Descriptor>, first: int)
    ensures DistinctIndices(Launch(ds, first))
  {
    var r := Launch(ds, first);
    forall i, j | 0 <= i < |r| && 0 <= j < |r| && i != j
      ensures r[i].index != r[j].index
    {
      assert r[i].index == first + i && r[j].index == first + j;
    }
  }

  /** A body after the gravity step. */
  function Fell(b: BodyState): BodyState
  {
    b.(speed := Accelerated(b.speed))
  }

  /** The first loop of a tick: every body falls, and only the vertical
      component of its speed changes. */
  function GravityPass(vs: seq<BodyState>): (r: seq<BodyState>)
    ensures |r| == |vs|
    ensures forall i :: 0 <= i < |vs| ==>
              && r[i].speed.y == vs[i].speed.y - 0.7
              && r[i].speed.x == vs[i].speed.x && r[i].speed.z == vs[i].speed.z
              && r[i].pos == vs[i].pos && r[i].handled == vs[i].handled
              && r[i].mass == vs[i].mass && r[i].size == vs[i].size && r[i].index == vs[i].index
  {
    seq(|vs|, i requires 0 <= i < |vs| => Fell(vs[i]))
  }

  /** One iteration of the second loop of a tick, for the body at `k`: it
      moves, bounces off the walls, then is resolved against every body. */
  function StepBody(ws: seq<BodyState>, k: nat, collide: Collider): (r: Option<seq<BodyState>>)
    requires k < |ws|
    ensures r.Some? ==> |r.value| == |ws|
  {
    ResolveUpTo(ws[k := Walled(Moved(ws[k]), SpaceLimits)], k, |ws|, collide)
  }

  /** One iteration of the second loop, as a value the loop can be given. */
  type Stepper = (seq<BodyState>, nat) -> Option<seq<BodyState>>

  function Stepping(collide: Collider): Stepper
  {
    (ws: seq<BodyState>, k: nat) => if k < |ws| then StepBody(ws, k, collide) else None
  }

  /** `step` is the iteration `StepBody` for the response `collide`. The
      quantifier is only instantiated where `StepBody` itself is mentioned. */
  ghost predicate StepsAs(step: Stepper, collide: Collider)
  {
    forall ws, k: nat {:trigger StepBody(ws, k, collide)} :: k < |ws| ==> step(ws, k) == StepBody(ws, k, collide)
  }

  /** `step` keeps the number of bodies. */
  ghost predicate KeepsCount(step: Stepper)
  {
    forall ws, k :: step(ws, k).Some? ==> |step(ws, k).value| == |ws|
  }

  lemma SteppingStepsAs(collide: Collider)
    ensures StepsAs(Stepping(collide), collide) && KeepsCount(Stepping(collide))
  {
  }

  /** What the second loop of a tick runs with: a real norm, the response
      `collide` it computes, and the iteration `step` for that response. */
  ghost predicate Runs(norm: Vec -> real, collide: Collider, step: Stepper)
  {
    IsNorm(norm) && Implements(collide, norm) && StepsAs(step, collide) && KeepsCount(step)
  }

  /** The second loop of a tick after its first `k` iterations. */
  function PassUpTo(vs: seq<BodyState>, k: nat, step: Stepper): (r: Option<seq<BodyState>>)
    requires k <= |vs| && KeepsCount(step)
    ensures r.Some? ==> |r.value| == |vs|
    decreases k
  {
    if k == 0 then Some(vs)
    else
      match PassUpTo(vs, k - 1, step)
      case None => None
      case Some(ws) => step(ws, k - 1)
  }

  /** A whole tick: the gravity pass over every body, then the second loop.
      None when a collision response would divide by zero. */
  function TickSpec(vs: seq<BodyState>, collide: Collider): Option<seq<BodyState>>
  {
    PassUpTo(GravityPass(vs), |vs|, Stepping(collide))
  }

  /** The loop's next iteration, for the body at `k`, spelled out. */
  lemma PassStep(vs: seq<BodyState>, k: nat, step: Stepper, collide: Collider, ws: seq<BodyState>)
    requires k < |vs| && KeepsCount(step) && StepsAs(step, collide)
    requires PassUpTo(vs, k, step) == Some(ws)
    ensures k < |ws|
    ensures PassUpTo(vs, k + 1, step) == ResolveUpTo(ws[k := Walled(Moved(ws[k]), SpaceLimits)], k, |ws|, collide)
  {
    assert step(ws, k) == StepBody(ws, k, collide);
  }

  /** A defined loop is defined on every prefix. */
  lemma {:induction false} PassPrefixDefined(vs: seq<BodyState>, j: nat, k: nat, step: Stepper)
    requires j <= k <= |vs| && KeepsCount(step)
    requires PassUpTo(vs, k, step).Some?
    ensures PassUpTo(vs, j, step).Some?
    decreases k
  {
    if j < k {
      PassPrefixDefined(vs, j, k - 1, step);
    }
  }

  /** A tick keeps the bodies: same count, masses, sizes and indices. */
  lemma {:induction false} PassKeepsBodies(vs: seq<BodyState>, k: nat, collide: Collider)
    requires k <= |vs| && KeepsBodies(collide)
    requires PassUpTo(vs, k, Stepping(collide)).Some?
    ensures SameBodies(vs, PassUpTo(vs, k, Stepping(collide)).value)
    decreases k
  {
    if k > 0 {
      PassKeepsBodies(vs, k - 1, collide);
      var ws := PassUpTo(vs, k - 1, Stepping(collide)).value;
      var moved := ws[k - 1 := Walled(Moved(ws[k - 1]), SpaceLimits)];
      ResolveKeepsBodies(moved, k - 1, |vs|, collide);
    }
  }

  /** Bodies the second loop has not reached yet are still where they were
      before the loop: the bodies resolved so far only nudged themselves, so a
      body is checked for contact with later bodies at their positions from before
      this tick's moves. */
  lemma {:induction false} PassLeavesLaterUnmoved(vs: seq<BodyState>, k: nat, collide: Collider)
    requires k <= |vs| && KeepsBodies(collide)
    requires PassUpTo(vs, k, Stepping(collide)).Some?
    ensures forall i :: k <= i < |vs| ==> PassUpTo(vs, k, Stepping(collide)).value[i].pos == vs[i].pos
    decreases k
  {
    if k > 0 {
      PassLeavesLaterUnmoved(vs, k - 1, collide);
      var ws := PassUpTo(vs, k - 1, Stepping(collide)).value;
      var moved := ws[k - 1 := Walled(Moved(ws[k - 1]), SpaceLimits)];
      ResolveMovesOnlySelf(moved, k - 1, |vs|, collide);
    }
  }

  /** Within a tick, the guard against resolving a pair twice never fires:
      when the body at `k` reaches body `j`, the index of body `j` is not in
      its list, because the move has just emptied the list. */
  lemma {:induction false} TickGuardNeverFires(vs: seq<BodyState>, k: nat, j: nat, collide: Collider)
    requires k < |vs| && j < |vs| && j != k && KeepsBodies(collide) && DistinctIndices(vs)
    requires PassUpTo(vs, k, Stepping(collide)).Some?
    requires var ws := PassUpTo(vs, k, Stepping(collide)).value;
             ResolveUpTo(ws[k := Walled(Moved(ws[k]), SpaceLimits)], k, j, collide).Some?
    ensures var ws := PassUpTo(vs, k, Stepping(collide)).value;
            var us := ResolveUpTo(ws[k := Walled(Moved(ws[k]), SpaceLimits)], k, j, collide).value;
            us[j].index !in us[k].handled
  {
    PassKeepsBodies(vs, k, collide);
    var ws := PassUpTo(vs, k, Stepping(collide)).value;
    var moved := ws[k := Walled(Moved(ws[k]), SpaceLimits)];
    assert DistinctIndices(moved) by {
      forall a, b | 0 <= a < |moved| && 0 <= b < |moved| && a != b
        ensures moved[a].index != moved[b].index
      {
        assert moved[a].index == vs[a].index && moved[b].index == vs[b].index;
      }
    }
    GuardNeverFires(moved, k, j, collide);
  }

  /** A whole tick keeps the bodies: same count, masses, sizes and indices. */
  lemma TickKeepsBodies(vs: seq<BodyState>, norm: Vec -> real)
    requires TickSpec(vs, Pairing(norm)).Some?
    ensures SameBodies(vs, TickSpec(vs, Pairing(norm)).value)
  {
    CollideKeepsBodies(norm);
    PassKeepsBodies(GravityPass(vs), |vs|, Pairing(norm));
  }

  /** The simulated world: the bodies and the number of ticks run. */
  class World {
    var ticks: int
    var objects: seq<Body>

    /** The bodies are listed in increasing order of index, so no body is
        listed twice. */
    ghost predicate Valid()
      reads this
    {
      forall i, j :: 0 <= i < j < |objects| ==> objects[i].index < objects[j].index
    }

    /** The state of every body, in order. */
    function States(): seq<BodyState>
      reads this, objects
    {
      Values(objects)
    }

    /** One body per descriptor, in order, numbered by the counter. */
    constructor (descriptors: seq<Descriptor>, counter: IndexCounter)
      modifies counter
      ensures Valid() && ticks == 0
      ensures States() == Launch(descriptors, old(counter.next))
      ensures counter.next == old(counter.next) + |descriptors|
      ensures forall b :: b in objects ==> fresh(b)
    {
      ghost var first := counter.next;
      var made: seq<Body> := [];
      var k := 0;
      while k < |descriptors|
        invariant k <= |descriptors| && |made| == k
        invariant counter.next == first + k
        invariant forall i :: 0 <= i < k ==> made[i].Value() == Launched(descriptors[i], first + i)
        invariant forall b :: b in made ==> fresh(b)
      {
        var d := descriptors[k];
        var vel := if d.initVel.Some? then d.initVel.value else Zero;
        var body := new Body(d.mass, d.size, d.pos, vel, counter);
        made := made + [body];
        k := k + 1;
      }
      ticks := 0;
      objects := made;
      ghost var launched := Launch(descriptors, first);
      assert forall i :: 0 <= i < |launched| ==> Values(made)[i] == launched[i];
    }

    /** One tick: the tick count goes up by one, every body falls, and then
        every body in turn moves, bounces off the walls and is resolved
        against all bodies. Neither the rotation update, which divides by each
        body's size, nor the responses may divide by zero. */
    method Tick(norm: Vec -> real)
      requires Valid() && IsNorm(norm)
      requires forall i :: 0 <= i < |objects| ==> objects[i].size != 0.0
      requires TickSpec(States(), Pairing(norm)).Some?
      modifies this, objects
      ensures Valid() && objects == old(objects)
      ensures ticks == old(ticks) + 1
      ensures TickSpec(old(States()), Pairing(norm)) == Some(States())
    {
      ticks := ticks + 1;
      Fall();
      PairingImplements(norm);
      SteppingStepsAs(Pairing(norm));
      assert Runs(norm, Pairing(norm), Stepping(Pairing(norm)));
      Advance(norm, Pairing(norm), Stepping(Pairing(norm)));
    }

    /** The first loop of `Tick`: gravity on every body. */
    method Fall()
      requires Valid()
      modifies objects
      ensures States() == GravityPass(old(States()))
    {
      ValidDistinct();
      ghost var start := States();
      var k := 0;
      while k < |objects|
        invariant k <= |objects|
        invariant forall i :: 0 <= i < |objects| ==> objects[i].Value() == if i < k then Fell(start[i]) else start[i]
      {
        var obj := objects[k];
        label Before:
        obj.UpdateVelocity();
        forall i | 0 <= i < |objects| && i != k
          ensures objects[i].Value() == old@Before(objects[i].Value())
        {
          assert objects[i] != obj;
        }
        k := k + 1;
      }
    }

    /** The second loop of `Tick`, where `step` is `StepBody` for the response
        `collide`, and `collide` is the response `Collide`. */
    method Advance(norm: Vec -> real, ghost collide: Collider, ghost step: Stepper)
      requires Valid() && Runs(norm, collide, step)
      requires PassUpTo(States(), |objects|, step).Some?
      modifies objects
      ensures PassUpTo(old(States()), |objects|, step) == Some(States())
    {
      ghost var start := States();
      var k := 0;
      while k < |objects|
        invariant k <= |objects| && PassUpTo(start, k, step) == Some(States())
      {
        Step(k, norm, collide, step, start);
        k := k + 1;
      }
    }

    /** The second loop of `Tick` has run its first `k` iterations from the
        states `start`, and the whole loop is defined. */
    ghost predicate Midway(k: nat, norm: Vec -> real, collide: Collider, step: Stepper, start: seq<BodyState>)
      reads this, objects
    {
      && Valid() && Runs(norm, collide, step) && k < |objects| == |start|
      && PassUpTo(start, k, step) == Some(States()) && PassUpTo(start, |start|, step).Some?
    }

    /** One iteration of the second loop of `Tick`, for the body at `k`. */
    method Step(k: nat, norm: Vec -> real, ghost collide: Collider, ghost step: Stepper, ghost start: seq<BodyState>)
      requires Midway(k, norm, collide, step, start)
      modifies objects
      ensures PassUpTo(start, k + 1, step) == Some(States())
    {
      ValidDistinct();
      PassPrefixDefined(start, k + 1, |start|, step);
      PassStep(start, k, step, collide, States());
      Prepare(k);
      ResolveBody(k, norm, collide);
    }

    /** The body at `k` is resolved against all bodies, by its pairwise loop. */
    method ResolveBody(k: nat, norm: Vec -> real, ghost collide: Collider)
      requires Distinct(objects) && k < |objects| && IsNorm(norm) && Implements(collide, norm)
      requires ResolveUpTo(States(), k, |objects|, collide).Some?
      modifies objects
      ensures ResolveUpTo(old(States()), k, |objects|, collide) == Some(States())
    {
      SlotOf(objects, k);
      objects[k].ResolveObjCollisions(objects, norm, collide);
    }

    /** The body at `k` moves and bounces off the walls; the others stay. */
    method Prepare(k: nat)
      requires Valid() && k < |objects|
      modifies objects[k]
      ensures var ws := old(States());
              States() == ws[k := Walled(Moved(ws[k]), SpaceLimits)]
    {
      ValidDistinct();
      ghost var ws := States();
      var obj := objects[k];
      obj.UpdatePos();
      obj.ResolveWallCollisions(SpaceLimits);
      forall i | 0 <= i < |objects| && i != k
        ensures objects[i].Value() == ws[i]
      {
        assert objects[i] != obj;
      }
    }

    /** Bodies listed in increasing order of index are distinct. */
    lemma ValidDistinct()
      requires Valid()
      ensures Distinct(objects)
    {
      forall i, j | 0 <= i < |objects| && 0 <= j < |objects| && i != j
        ensures objects[i] != objects[j]
      {
        if i < j {
          assert objects[i].index < objects[j].index;
        } else {
          assert objects[j].index < objects[i].index;
        }
      }
    }
  }
}
