/** The mutable bodies of bouncing_balls.py: `Body3D` objects whose position,
    speed and list of handled collisions the simulation updates in place,
    each method proved against the value-level rule in module Physics. */
module Bodies {
  import opened Vectors
  import opened Physics

  /** The class-wide counter `Body3D.index_counter`, made explicit: every
      body takes the current value as its index and bumps it. */
  class IndexCounter {
    var next: int

    constructor ()
      ensures next == 0
    {
      next := 0;
    }
  }

  class Body {
    const mass: real
    const size: real
    var pos: Vec
    var speed: Vec
    var handled: seq<int>
    const index: int

    /** Everything the physics reads or writes on this body, as a value. */
    function Value(): BodyState
      reads this
    {
      BodyState(mass, size, pos, speed, handled, index)
    }

    /** A new body takes the counter's value as its index and advances the
        counter by one, so bodies made from one counter have distinct,
        increasing indices. */
    constructor (mass: real, size: real, pos: Vec, speed: Vec, counter: IndexCounter)
      modifies counter
      ensures Value() == BodyState(mass, size, pos, speed, [], old(counter.next))
      ensures counter.next == old(counter.next) + 1
    {
      this.mass := mass;
      this.size := size;
      this.pos := pos;
      this.speed := speed;
      this.handled := [];
      this.index := counter.next;
      counter.next := counter.next + 1;
    }

    /** A sphere of radius `size` at `pos` touches this body when the
        distance between the centres is strictly below the sum of the radii;
        for a real norm this is exactly the square-free `Contact`. */
    function IsTouching(pos: Vec, size: real, norm: Vec -> real): (r: bool)
      reads this
      requires IsNorm(norm)
      ensures r <==> Contact(pos, size, this.pos, this.size)
    {
      var dist := norm(Sub(pos, this.pos));
      ContactIffDistanceBelow(pos, size, this.pos, this.size, dist);
      dist < size + this.size
    }

    /** The positions in `objects` of the other bodies this one touches, in
        increasing order. */
    method GetCollisions(objects: seq<Body>, norm: Vec -> real) returns (collisions: seq<int>)
      requires IsNorm(norm)
      ensures forall a, b :: 0 <= a < b < |collisions| ==> collisions[a] < collisions[b]
      ensures forall n :: n in collisions <==>
                0 <= n < |objects| && objects[n] != this && Contact(pos, size, objects[n].pos, objects[n].size)
    {
      collisions := [];
      var n := 0;
      while n < |objects|
        invariant 0 <= n <= |objects|
        invariant forall a, b :: 0 <= a < b < |collisions| ==> collisions[a] < collisions[b]
        invariant forall a :: 0 <= a < |collisions| ==> collisions[a] < n
        invariant forall c :: c in collisions <==>
                    0 <= c < n && objects[c] != this && Contact(pos, size, objects[c].pos, objects[c].size)
      {
        var obj := objects[n];
        if obj != this {
          var dist := norm(Sub(pos, obj.pos));
          ContactIffDistanceBelow(pos, size, obj.pos, obj.size, dist);
          if dist < size + obj.size {
            collisions := collisions + [n];
          }
        }
        n := n + 1;
      }
    }

    /** One tick of gravity on the speed; nothing else changes. */
    method UpdateVelocity()
      modifies this
      ensures Value() == old(Value()).(speed := Accelerated(old(speed)))
    {
      speed := Add(speed, Scale(TimeTick, GravityVector));
    }

    /** One tick of motion; the list of handled collisions is cleared. */
    method UpdatePos()
      modifies this
      ensures Value() == Moved(old(Value()))
    {
      pos := Add(pos, Scale(TimeTick, speed));
      handled := [];
    }

    /** The wall response, one axis after the other. */
    method ResolveWallCollisions(limits: seq<Limit>)
      requires |limits| <= 3
      modifies this
      ensures Value() == Walled(old(Value()), limits)
    {
      var idx := 0;
      while idx < |limits|
        invariant 0 <= idx <= |limits|
        invariant Value() == WalledUpTo(old(Value()), limits, idx)
      {
        var limit := limits[idx];
        if At(pos, idx) - size < limit.lo {
          speed := With(speed, idx, At(speed, idx) * -(1.0 - Damping));
          pos := With(pos, idx, limit.lo + size + CollisionMargin);
        } else if At(pos, idx) + size > limit.hi {
          speed := With(speed, idx, At(speed, idx) * -(1.0 - Damping));
          pos := With(pos, idx, limit.hi - size - CollisionMargin);
        }
        idx := idx + 1;
      }
    }

    /** The collision response against `obj` along `direction`: both speeds
        change, only this body is nudged, and each records the other. */
    method RespondTo(obj: Body, direction: Vec)
      requires obj != this && mass + obj.mass != 0.0
      modifies this, obj
      ensures (Value(), obj.Value()) == Respond(old(Value()), old(obj.Value()), direction)
    {
      var selfDv := Dot(speed, direction);
      var objDv := Dot(obj.speed, direction);
      var total := mass + obj.mass;
      speed := Add(speed, Scale(Gain(selfDv, objDv, obj.mass, total), direction));
      obj.speed := Add(obj.speed, Scale(Gain(objDv, selfDv, mass, total), direction));
      pos := Add(pos, Scale(CollisionMargin * 3.0, direction));
      handled := handled + [obj.index];
      obj.handled := obj.handled + [index];
    }

    /** Resolve this body against every other body in `objects`, in order.
        The bodies involved are `objects`, with this body added at the end
        when it is not among them; the new state of all of them is the
        pairwise loop's result, where `collide` is the response `Collide`
        (as `Pairing(norm)` is). The loop must not divide by zero. */
    method ResolveObjCollisions(objects: seq<Body>, norm: Vec -> real, ghost collide: Collider)
      requires IsNorm(norm) && Implements(collide, norm) && Distinct(objects)
      requires ResolveUpTo(Values(Scope(objects, this)), Slot(objects, this), |objects|, collide).Some?
      modifies this, objects
      ensures ResolveUpTo(old(Values(Scope(objects, this))), Slot(objects, this), |objects|, collide)
                == Some(Values(Scope(objects, this)))
    {
      ScopeFacts(objects, this);
      assert Slotted(Scope(objects, this), Slot(objects, this), this);
      ResolveLoop(Scope(objects, this), Slot(objects, this), |objects|, norm, collide);
    }

    /** The loop of `resolve_obj_collisions`: this body, at `at` in `scope`,
        against the first `n` bodies of `scope` in order. */
    method ResolveLoop(scope: seq<Body>, at: nat, n: nat, norm: Vec -> real, ghost collide: Collider)
      requires IsNorm(norm) && Implements(collide, norm) && Slotted(scope, at, this)
      requires n <= |scope| && ResolveUpTo(Values(scope), at, n, collide).Some?
      modifies scope
      ensures ResolveUpTo(old(Values(scope)), at, n, collide) == Some(Values(scope))
    {
      ghost var start := Values(scope);
      var j := 0;
      while j < n
        invariant j <= n && ResolveUpTo(start, at, j, collide) == Some(Values(scope))
      {
        ResolveNext(start, at, j, n, collide);
        ResolveStep(scope, at, j, norm, collide);
        j := j + 1;
      }
    }

    /** One iteration of the loop in `ResolveObjCollisions`: this body, at
        `at` in `scope`, against the body at `j`. */
    method ResolveStep(scope: seq<Body>, at: nat, j: nat, norm: Vec -> real, ghost collide: Collider)
      requires IsNorm(norm) && Implements(collide, norm) && Slotted(scope, at, this) && j < |scope|
      requires ResolveOne(Values(scope), at, j, collide).Some?
      modifies this, scope[j]
      ensures ResolveOne(old(Values(scope)), at, j, collide) == Some(Values(scope))
    {
      ghost var ws := Values(scope);
      var obj := scope[j];
      if obj != this {
        assert j != at;
        if obj.IsTouching(pos, size, norm) && obj.index !in handled {
          assert collide(ws[at], ws[j]) == Collide(ws[at], ws[j], norm);
          Meet(scope, at, j, norm);
        }
      }
    }

    /** The response of this body, at `at` in `scope`, to the body at `j`,
        along the contact normal. */
    method Meet(scope: seq<Body>, at: nat, j: nat, norm: Vec -> real)
      requires Distinct(scope)
      requires at < |scope| && j < |scope| && at != j && scope[at] == this
      requires Collide(Values(scope)[at], Values(scope)[j], norm).Some?
      modifies this, scope[j]
      ensures var ws := old(Values(scope));
              Values(scope) == ws[at := Collide(ws[at], ws[j], norm).value.0][j := Collide(ws[at], ws[j], norm).value.1]
    {
      ghost var ws := Values(scope);
      var obj := scope[j];
      var diff := Sub(pos, obj.pos);
      var direction := Scale(1.0 / norm(diff), diff);
      assert direction == Normal(ws[at], ws[j], norm);
      ghost var pair := Collide(ws[at], ws[j], norm).value;
      label Before:
      RespondTo(obj, direction);
      forall i | 0 <= i < |scope|
        ensures Values(scope)[i] == ws[at := pair.0][j := pair.1][i]
      {
        if i != at && i != j {
          assert scope[i] != this && scope[i] != obj;
          assert scope[i].Value() == old@Before(scope[i].Value());
        }
      }
    }
  }

  /** No body occurs twice. */
  ghost predicate Distinct(bs: seq<Body>)
  {
    forall i, j :: 0 <= i < |bs| && 0 <= j < |bs| && i != j ==> bs[i] != bs[j]
  }

  /** `self` sits at `at` in `scope`, a sequence without repetitions. */
  ghost predicate Slotted(scope: seq<Body>, at: nat, self: Body)
  {
    Distinct(scope) && at < |scope| && scope[at] == self
  }

  /** The facts about `Scope` and `Slot` the pairwise loop relies on. */
  lemma ScopeFacts(objects: seq<Body>, self: Body)
    requires Distinct(objects)
    ensures Distinct(Scope(objects, self))
    ensures |Scope(objects, self)| == |objects| || |Scope(objects, self)| == |objects| + 1
    ensures forall i :: 0 <= i < |objects| ==> Scope(objects, self)[i] == objects[i]
  {
  }

  /** A body found at `k` of a sequence without repetitions is resolved
      there, against the sequence itself. */
  lemma SlotOf(objects: seq<Body>, k: nat)
    requires Distinct(objects) && k < |objects|
    ensures Scope(objects, objects[k]) == objects && Slot(objects, objects[k]) == k
  {
  }

  /** The values of a sequence of bodies. */
  function Values(bs: seq<Body>): (r: seq<BodyState>)
    reads bs
    ensures |r| == |bs| && forall i :: 0 <= i < |bs| ==> r[i] == bs[i].Value()
  {
    seq(|bs|, i reads bs requires 0 <= i < |bs| => bs[i].Value())
  }

  /** The bodies a call `self.resolve_obj_collisions(objects)` involves. */
  function Scope(objects: seq<Body>, self: Body): seq<Body>
  {
    if self in objects then objects else objects + [self]
  }

  /** Where `self` sits in `Scope(objects, self)`. */
  function Slot(objects: seq<Body>, self: Body): (r: nat)
    ensures r < |Scope(objects, self)| && Scope(objects, self)[r] == self
    ensures self in objects ==> r < |objects| && objects[r] == self
    ensures self !in objects ==> r == |objects|
  {
    if self !in objects then |objects|
    else if objects[0] == self then 0
    else Slot(objects[1..], self) + 1
  }
}
