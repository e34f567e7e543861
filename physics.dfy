/** The physics of one body and of one pair of bodies, on values: what
    `PhysicalBody` in bouncing_balls.py does to a body's state in each step,
    written as functions, together with the properties those rules guarantee. */
module Physics {
  import opened Vectors

  /** Simulated time per tick. */
  const TimeTick: real := 0.1
  const GravityConst: real := 7.0
  /** Gravity points down the y axis. */
  const GravityVector: Vec := Vec(0.0, -GravityConst, 0.0)
  /** Clearance left between a clamped body and the wall it hit. */
  const CollisionMargin: real := 0.1
  /** Fraction of speed lost in a bounce. */
  const Damping: real := 0.5

  datatype Option<T> = None | Some(value: T)

  /** The extent of the cavity along one axis. */
  datatype Limit = Limit(lo: real, hi: real)

  /** The cavity the bodies live in: x in [-200, 200], y in [-200, 800], z in [-200, 200]. */
  const SpaceLimits: seq<Limit> := [Limit(-200.0, 200.0), Limit(-200.0, 800.0), Limit(-200.0, 200.0)]

  /** A snapshot of everything the physics reads or writes on one body:
      `handled` lists the indices of the bodies it was resolved against since
      its last move, `index` is its identity. */
  datatype BodyState = BodyState(mass: real, size: real, pos: Vec, speed: Vec, handled: seq<int>, index: int)

  /** Two spheres touch when the distance between their centres is strictly
      below the sum of their radii. Stated without the square root: the sum
      must be positive and the squared distance below its square. */
  predicate Contact(p: Vec, sp: real, q: Vec, sq: real)
  {
    var reach := sp + sq;
    reach > 0.0 && DistSq(p, q) < reach * reach
  }

  /** The contact test above is exactly the test `is_touching` makes,
      `norm(q - p) < sp + sq`, for every radius, negative ones included. */
  lemma {:induction false} ContactIffDistanceBelow(p: Vec, sp: real, q: Vec, sq: real, dist: real)
    requires 0.0 <= dist && dist * dist == DistSq(p, q)
    ensures Contact(p, sp, q, sq) <==> dist < sp + sq
  {
    var reach := sp + sq;
    if dist < reach {
      SquareLess(dist, reach);
    } else if reach > 0.0 {
      SquareAtLeast(dist, reach);
    }
  }

  /** Touching does not depend on which of the two bodies asks. */
  lemma ContactSymmetric(p: Vec, sp: real, q: Vec, sq: real)
    ensures Contact(p, sp, q, sq) <==> Contact(q, sq, p, sp)
  {
    assert DistSq(p, q) == DistSq(q, p);
  }

  /** One tick of gravity: only the vertical component changes, by
      TimeTick * GravityConst downwards. */
  function Accelerated(v: Vec): (r: Vec)
    ensures r.x == v.x && r.y == v.y - 0.7 && r.z == v.z
  {
    Add(v, Scale(TimeTick, GravityVector))
  }

  /** A body advanced by one tick of its own speed; it forgets which bodies
      it was resolved against. */
  function Moved(b: BodyState): (r: BodyState)
    ensures forall i :: 0 <= i < 3 ==> At(r.pos, i) == At(b.pos, i) + 0.1 * At(b.speed, i)
    ensures r.speed == b.speed && r.handled == []
    ensures r.mass == b.mass && r.size == b.size && r.index == b.index
  {
    b.(pos := Add(b.pos, Scale(TimeTick, b.speed)), handled := [])
  }

  /** A sphere of radius `size` centred at `p` lies within the limit. */
  predicate Inside(p: real, size: real, lim: Limit)
  {
    lim.lo <= p - size && p + size <= lim.hi
  }

  /** The limit leaves room for the sphere plus the clearance margin. */
  predicate Roomy(size: real, lim: Limit)
  {
    lim.hi - lim.lo >= 2.0 * size + CollisionMargin
  }

  /** Wall response along one axis: the new position and speed component.
      A sphere already within the walls is left alone; one that pokes out is
      put back just clear of the wall it crossed (the lower wall first) and
      its speed component is reversed and damped. */
  function WallAxis(p: real, v: real, size: real, lim: Limit): (r: (real, real))
    ensures Inside(p, size, lim) ==> r == (p, v)
    ensures !Inside(p, size, lim) ==> r.1 == -(v / 2.0)
    ensures p - size < lim.lo ==> r.0 - size == lim.lo + CollisionMargin
    ensures lim.lo <= p - size && lim.hi < p + size ==> r.0 + size == lim.hi - CollisionMargin
    ensures Roomy(size, lim) ==> Inside(r.0, size, lim)
  {
    if p - size < lim.lo then
      (lim.lo + size + CollisionMargin, v * -(1.0 - Damping))
    else if p + size > lim.hi then
      (lim.hi - size - CollisionMargin, v * -(1.0 - Damping))
    else
      (p, v)
  }

  /** The wall response on axis `i` alone. */
  function WallStep(b: BodyState, lim: Limit, i: nat): BodyState
    requires i < 3
  {
    var r := WallAxis(At(b.pos, i), At(b.speed, i), b.size, lim);
    b.(pos := With(b.pos, i, r.0), speed := With(b.speed, i, r.1))
  }

  /** The wall loop after its first `k` axes: those axes have had the
      one-axis response, the others are untouched. */
  function WalledUpTo(b: BodyState, limits: seq<Limit>, k: nat): (r: BodyState)
    requires k <= |limits| <= 3
    ensures forall i :: 0 <= i < k ==>
              var a := WallAxis(At(b.pos, i), At(b.speed, i), b.size, limits[i]);
              At(r.pos, i) == a.0 && At(r.speed, i) == a.1
    ensures forall i :: k <= i < 3 ==> At(r.pos, i) == At(b.pos, i) && At(r.speed, i) == At(b.speed, i)
    ensures r.mass == b.mass && r.size == b.size && r.handled == b.handled && r.index == b.index
  {
    if k == 0 then b else WallStep(WalledUpTo(b, limits, k - 1), limits[k - 1], k - 1)
  }

  /** Wall response on every axis that has a limit: an axis with room ends
      with the sphere inside, an axis already inside is untouched, and so is
      every axis beyond the limits. */
  function Walled(b: BodyState, limits: seq<Limit>): (r: BodyState)
    requires |limits| <= 3
    ensures forall i :: 0 <= i < |limits| && Roomy(b.size, limits[i]) ==> Inside(At(r.pos, i), b.size, limits[i])
    ensures forall i :: 0 <= i < |limits| && Inside(At(b.pos, i), b.size, limits[i]) ==>
              At(r.pos, i) == At(b.pos, i) && At(r.speed, i) == At(b.speed, i)
    ensures forall i :: |limits| <= i < 3 ==> At(r.pos, i) == At(b.pos, i) && At(r.speed, i) == At(b.speed, i)
    ensures r.mass == b.mass && r.size == b.size && r.handled == b.handled && r.index == b.index
  {
    WalledUpTo(b, limits, |limits|)
  }

  /** A body inside a cavity with room on every axis stays there after the
      wall response; one poking out is brought back in. */
  lemma {:induction false} WalledInsideCavity(b: BodyState)
    requires forall i :: 0 <= i < 3 ==> Roomy(b.size, SpaceLimits[i])
    ensures var r := Walled(b, SpaceLimits);
            forall i :: 0 <= i < 3 ==> SpaceLimits[i].lo <= At(r.pos, i) - b.size && At(r.pos, i) + b.size <= SpaceLimits[i].hi
  {
    var r := Walled(b, SpaceLimits);
    forall i | 0 <= i < 3
      ensures SpaceLimits[i].lo <= At(r.pos, i) - b.size && At(r.pos, i) + b.size <= SpaceLimits[i].hi
    {
      assert Inside(At(r.pos, i), b.size, SpaceLimits[i]);
    }
  }

  /** The speed change a collision gives the body whose normal speed is
      `mine`, against a partner with normal speed `theirs` and mass
      `theirMass`. */
  function Gain(mine: real, theirs: real, theirMass: real, total: real): real
    requires total != 0.0
  {
    (theirs - mine) * (1.0 - Damping) * (2.0 * theirMass / total)
  }

  /** Collision response between `s` (the body being resolved) and `o`,
      along the direction `d` from o's centre towards s's: both speeds change
      along `d` by a mass-weighted, damped exchange of their normal speeds;
      only `s` is nudged away, and each records the other's index. */
  function Respond(s: BodyState, o: BodyState, d: Vec): (r: (BodyState, BodyState))
    requires s.mass + o.mass != 0.0
    ensures r.0.pos == Add(s.pos, Scale(0.3, d)) && r.1.pos == o.pos
    ensures r.0.handled == s.handled + [o.index] && r.1.handled == o.handled + [s.index]
    ensures r.0.mass == s.mass && r.0.size == s.size && r.0.index == s.index
    ensures r.1.mass == o.mass && r.1.size == o.size && r.1.index == o.index
  {
    var sdv := Dot(s.speed, d);
    var odv := Dot(o.speed, d);
    var total := s.mass + o.mass;
    (s.(speed := Add(s.speed, Scale(Gain(sdv, odv, o.mass, total), d)),
        pos := Add(s.pos, Scale(CollisionMargin * 3.0, d)),
        handled := s.handled + [o.index]),
     o.(speed := Add(o.speed, Scale(Gain(odv, sdv, s.mass, total), d)),
        handled := o.handled + [s.index]))
  }

  /** Momentum is conserved by a response, for any direction vector: the
      mass-weighted sum of the two speeds is the same before and after. */
  lemma {:induction false} RespondConservesMomentum(s: BodyState, o: BodyState, d: Vec)
    requires s.mass + o.mass != 0.0
    ensures var r := Respond(s, o, d);
            Add(Scale(s.mass, r.0.speed), Scale(o.mass, r.1.speed)) == Add(Scale(s.mass, s.speed), Scale(o.mass, o.speed))
  {
    var sdv, odv, total := Dot(s.speed, d), Dot(o.speed, d), s.mass + o.mass;
    GainsCancel(s.mass, o.mass, sdv, odv);
    ExchangeMomentum(s.mass, o.mass, s.speed, o.speed, d, Gain(sdv, odv, o.mass, total), Gain(odv, sdv, s.mass, total));
  }

  /** Two speed changes along `d` whose momenta cancel leave the total
      momentum of the pair unchanged. */
  lemma ExchangeMomentum(sm: real, om: real, sv: Vec, ov: Vec, d: Vec, gs: real, go: real)
    requires sm * gs + om * go == 0.0
    ensures Add(Scale(sm, Add(sv, Scale(gs, d))), Scale(om, Add(ov, Scale(go, d)))) == Add(Scale(sm, sv), Scale(om, ov))
  {
    var p, q := Add(sv, Scale(gs, d)), Add(ov, Scale(go, d));
    PairMomentum(sm, om, sv.x, ov.x, p.x, q.x, gs, go, d.x);
    PairMomentum(sm, om, sv.y, ov.y, p.y, q.y, gs, go, d.y);
    PairMomentum(sm, om, sv.z, ov.z, p.z, q.z, gs, go, d.z);
  }

  /** The arithmetic of one axis of the pair's momentum. */
  lemma PairMomentum(sm: real, om: real, x: real, y: real, a: real, b: real, gs: real, go: real, di: real)
    requires sm * gs + om * go == 0.0
    requires a == x + gs * di && b == y + go * di
    ensures sm * a + om * b == sm * x + om * y
  {
    assert sm * (gs * di) + om * (go * di) == (sm * gs + om * go) * di;
  }

  /** The two speed changes of a response carry opposite momenta. */
  lemma GainsCancel(sm: real, om: real, sdv: real, odv: real)
    requires sm + om != 0.0
    ensures sm * Gain(sdv, odv, om, sm + om) + om * Gain(odv, sdv, sm, sm + om) == 0.0
  {
    var t := sm + om;
    var w := 1.0 / t;
    assert 2.0 * om / t == 2.0 * om * w;
    assert 2.0 * sm / t == 2.0 * sm * w;
  }

  /** Every speed change is along `d`: a component orthogonal to `d` is
      untouched, on both bodies. */
  lemma {:induction false} RespondKeepsTangential(s: BodyState, o: BodyState, d: Vec, t: Vec)
    requires s.mass + o.mass != 0.0
    requires Dot(d, t) == 0.0
    ensures var r := Respond(s, o, d);
            Dot(r.0.speed, t) == Dot(s.speed, t) && Dot(r.1.speed, t) == Dot(o.speed, t)
  {
    var sdv, odv, total := Dot(s.speed, d), Dot(o.speed, d), s.mass + o.mass;
    DotAddScale(s.speed, Gain(sdv, odv, o.mass, total), d, t);
    DotAddScale(o.speed, Gain(odv, sdv, s.mass, total), d, t);
  }

  /** Along a unit normal, the relative speed after a response is
      (1 - 2 * (1 - Damping)) times what it was: with Damping = 0.5 the two
      bodies leave with equal normal speeds. */
  lemma {:induction false} RespondRelativeNormalSpeed(s: BodyState, o: BodyState, d: Vec)
    requires s.mass + o.mass != 0.0
    requires Dot(d, d) == 1.0
    ensures var r := Respond(s, o, d);
            Dot(r.0.speed, d) - Dot(r.1.speed, d) == (1.0 - 2.0 * (1.0 - Damping)) * (Dot(s.speed, d) - Dot(o.speed, d))
    ensures var r := Respond(s, o, d);
            Dot(r.0.speed, d) == Dot(r.1.speed, d)
  {
    var sdv, odv, total := Dot(s.speed, d), Dot(o.speed, d), s.mass + o.mass;
    DotAddScale(s.speed, Gain(sdv, odv, o.mass, total), d, d);
    DotAddScale(o.speed, Gain(odv, sdv, s.mass, total), d, d);
    NormalSpeedsMeet(s.mass, o.mass, sdv, odv);
  }

  lemma NormalSpeedsMeet(sm: real, om: real, sdv: real, odv: real)
    requires sm + om != 0.0
    ensures sdv + Gain(sdv, odv, om, sm + om) == odv + Gain(odv, sdv, sm, sm + om)
  {
    var t := sm + om;
    var w := 1.0 / t;
    assert t * w == 1.0;
    assert 2.0 * om / t == 2.0 * om * w;
    assert 2.0 * sm / t == 2.0 * sm * w;
  }

  /** The kinetic energy, doubled, of two bodies of masses `sm` and `om`
      moving at speeds `a` and `b` along one line. */
  function NormalEnergy(sm: real, om: real, a: real, b: real): real
  {
    sm * (a * a) + om * (b * b)
  }

  /** The response `p` to `s` meeting `o` carries no more kinetic energy
      along `d` than the two bodies had before. */
  predicate DampsNormalEnergy(s: BodyState, o: BodyState, p: (BodyState, BodyState), d: Vec)
  {
    NormalEnergy(s.mass, o.mass, Dot(p.0.speed, d), Dot(p.1.speed, d))
      <= NormalEnergy(s.mass, o.mass, Dot(s.speed, d), Dot(o.speed, d))
  }

  /** For positive masses and a unit normal, the kinetic energy carried
      along the normal never grows in a response. */
  lemma {:induction false} RespondDissipatesNormalEnergy(s: BodyState, o: BodyState, d: Vec)
    requires s.mass > 0.0 && o.mass > 0.0
    requires Dot(d, d) == 1.0
    ensures DampsNormalEnergy(s, o, Respond(s, o, d), d)
  {
    var r := Respond(s, o, d);
    var sdv, odv, total := Dot(s.speed, d), Dot(o.speed, d), s.mass + o.mass;
    var g := Gain(sdv, odv, o.mass, total);
    RespondRelativeNormalSpeed(s, o, d);
    assert r.0.speed == Add(s.speed, Scale(g, d));
    DotAddScale(s.speed, g, d, d);
    var c := Dot(r.0.speed, d);
    assert c == sdv + g;
    assert Dot(r.1.speed, d) == c;
    CommonSpeed(s.mass, o.mass, sdv, odv);
    EnergyOfCommonSpeed(s.mass, o.mass, sdv, odv, c);
  }

  /** With DAMPING_FACTOR = 0.5 both bodies leave with the mass-weighted mean
      of their normal speeds. */
  lemma CommonSpeed(sm: real, om: real, a: real, b: real)
    requires sm + om != 0.0
    ensures (a + Gain(a, b, om, sm + om)) * (sm + om) == sm * a + om * b
  {
    var t := sm + om;
    assert (2.0 * om / t) * t == 2.0 * om;
    calc {
      (a + Gain(a, b, om, t)) * t;
      a * t + (b - a) * (1.0 - Damping) * ((2.0 * om / t) * t);
      a * t + (b - a) * om;
    }
  }

  /** Two bodies moving at the common speed `c` of a pair whose momentum is
      `sm * a + om * b` carry no more kinetic energy than the pair did. */
  lemma EnergyOfCommonSpeed(sm: real, om: real, a: real, b: real, c: real)
    requires sm > 0.0 && om > 0.0
    requires c * (sm + om) == sm * a + om * b
    ensures NormalEnergy(sm, om, c, c) <= NormalEnergy(sm, om, a, b)
  {
    var t, p, e := sm + om, sm * a + om * b, sm * (a * a) + om * (b * b);
    WeightedSquares(sm, om, a, b);
    ProductNonNegative(sm * om, (a - b) * (a - b));
    assert p * p <= t * e;
    assert (c * t) * (c * t) == p * p;
    assert t * (t * (c * c)) == (c * t) * (c * t);
    CancelPositive(t, t * (c * c), e);
    assert sm * (c * c) + om * (c * c) == t * (c * c);
  }

  /** The weighted sum of squares exceeds the square of the weighted sum
      (scaled by the total weight) by the product of the weights times the
      squared difference. */
  lemma WeightedSquares(sm: real, om: real, a: real, b: real)
    ensures (sm + om) * (sm * (a * a) + om * (b * b))
            == (sm * a + om * b) * (sm * a + om * b) + (sm * om) * ((a - b) * (a - b))
  {
  }

  lemma ProductNonNegative(x: real, y: real)
    requires x >= 0.0 && y >= 0.0
    ensures x * y >= 0.0
  {
  }

  lemma CancelPositive(t: real, x: real, y: real)
    requires t > 0.0 && t * x <= t * y
    ensures x <= y
  {
  }


  /** The contact normal `resolve_obj_collisions` computes for `s` against `o`: the
      difference of their centres divided by its length. */
  function Normal(s: BodyState, o: BodyState, norm: Vec -> real): Vec
    requires norm(Sub(s.pos, o.pos)) != 0.0
  {
    Scale(1.0 / norm(Sub(s.pos, o.pos)), Sub(s.pos, o.pos))
  }

  /** What `resolve_obj_collisions` does once it has found that `s` touches `o` and has not
      been resolved against it yet: respond along the contact normal. None
      where `resolve_obj_collisions` divides by zero, so that its result is not a number:
      the normal has length zero, or the two masses sum to zero. */
  function Collide(s: BodyState, o: BodyState, norm: Vec -> real): Option<(BodyState, BodyState)>
  {
    if norm(Sub(s.pos, o.pos)) == 0.0 || s.mass + o.mass == 0.0 then None
    else Some(Respond(s, o, Normal(s, o, norm)))
  }

  /** A collision fails exactly when the two centres coincide or the masses
      sum to zero. */
  lemma {:induction false} CollideFailsIff(s: BodyState, o: BodyState, norm: Vec -> real)
    requires IsNorm(norm)
    ensures Collide(s, o, norm).None? <==> s.pos == o.pos || s.mass + o.mass == 0.0
  {
    SubZero(s.pos, o.pos);
  }

  /** Between distinct centres the contact normal has length one and points
      from o's centre towards s's. */
  lemma {:induction false} NormalIsUnit(s: BodyState, o: BodyState, norm: Vec -> real)
    requires IsNorm(norm) && s.pos != o.pos
    ensures norm(Sub(s.pos, o.pos)) > 0.0
    ensures Dot(Normal(s, o, norm), Normal(s, o, norm)) == 1.0
  {
    var diff := Sub(s.pos, o.pos);
    SubZero(s.pos, o.pos);
    UnitDirection(diff, norm(diff));
  }

  /** A successful collision leaves the two bodies with equal speeds along
      the contact normal, conserves their momentum, and does not increase the
      kinetic energy along the normal when both masses are positive. */
  lemma {:induction false} CollideOutcome(s: BodyState, o: BodyState, norm: Vec -> real)
    requires IsNorm(norm) && Collide(s, o, norm).Some?
    ensures var r, d := Collide(s, o, norm).value, Normal(s, o, norm);
            Dot(r.0.speed, d) == Dot(r.1.speed, d)
    ensures var r := Collide(s, o, norm).value;
            Add(Scale(s.mass, r.0.speed), Scale(o.mass, r.1.speed)) == Add(Scale(s.mass, s.speed), Scale(o.mass, o.speed))
    ensures s.mass > 0.0 && o.mass > 0.0 ==>
              DampsNormalEnergy(s, o, Collide(s, o, norm).value, Normal(s, o, norm))
  {
    CollideFailsIff(s, o, norm);
    NormalIsUnit(s, o, norm);
    var d := Normal(s, o, norm);
    RespondRelativeNormalSpeed(s, o, d);
    RespondConservesMomentum(s, o, d);
    assert Collide(s, o, norm).value == Respond(s, o, d);
    if s.mass > 0.0 && o.mass > 0.0 {
      RespondDissipatesNormalEnergy(s, o, d);
    }
  }

  /** The collision response as a value the pairwise loop can be given. */
  type Collider = (BodyState, BodyState) -> Option<(BodyState, BodyState)>

  function Pairing(norm: Vec -> real): Collider
  {
    (s, o) => Collide(s, o, norm)
  }

  /** `collide` is the collision response of `resolve_obj_collisions` for the norm `norm`.
      The quantifier is only instantiated where `Collide` itself is
      mentioned, which keeps the response's arithmetic out of proofs about
      the loop that do not look inside it. */
  ghost predicate Implements(collide: Collider, norm: Vec -> real)
  {
    forall s, o {:trigger Collide(s, o, norm)} :: collide(s, o) == Collide(s, o, norm)
  }

  lemma PairingImplements(norm: Vec -> real)
    ensures Implements(Pairing(norm), norm)
  {
  }

  /** A response `p` to `s` meeting `o` keeps each body's mass, size and
      index, moves only `s`, and has each record the other's index. */
  predicate Kept(s: BodyState, o: BodyState, p: (BodyState, BodyState))
  {
    && p.0.mass == s.mass && p.0.size == s.size && p.0.index == s.index
    && p.1.mass == o.mass && p.1.size == o.size && p.1.index == o.index
    && p.1.pos == o.pos
    && p.0.handled == s.handled + [o.index] && p.1.handled == o.handled + [s.index]
  }

  ghost predicate KeepsBodies(collide: Collider)
  {
    forall s, o :: collide(s, o).Some? ==> Kept(s, o, collide(s, o).value)
  }

  /** A response that conserves the pair's momentum. */
  predicate MomentumKept(s: BodyState, o: BodyState, p: (BodyState, BodyState))
  {
    Add(Scale(s.mass, p.0.speed), Scale(o.mass, p.1.speed)) == Add(Scale(s.mass, s.speed), Scale(o.mass, o.speed))
  }

  ghost predicate ConservesMomentum(collide: Collider)
  {
    forall s, o :: collide(s, o).Some? ==> MomentumKept(s, o, collide(s, o).value)
  }

  lemma CollideKeepsBodies(norm: Vec -> real)
    ensures KeepsBodies(Pairing(norm))
  {
    forall s, o | Pairing(norm)(s, o).Some?
      ensures Kept(s, o, Pairing(norm)(s, o).value)
    {
      assert Pairing(norm)(s, o) == Collide(s, o, norm);
    }
  }

  lemma CollideConservesMomentum(norm: Vec -> real)
    requires IsNorm(norm)
    ensures ConservesMomentum(Pairing(norm))
  {
    forall s, o | Pairing(norm)(s, o).Some?
      ensures MomentumKept(s, o, Pairing(norm)(s, o).value)
    {
      assert Pairing(norm)(s, o) == Collide(s, o, norm);
      CollideOutcome(s, o, norm);
    }
  }

  /** No two entries of `vs` share an index. */
  ghost predicate DistinctIndices(vs: seq<BodyState>)
  {
    forall i, j :: 0 <= i < |vs| && 0 <= j < |vs| && i != j ==> vs[i].index != vs[j].index
  }

  /** `ws` has the same bodies as `vs`: same count, masses, sizes and indices. */
  ghost predicate SameBodies(vs: seq<BodyState>, ws: seq<BodyState>)
  {
    && |ws| == |vs|
    && forall i :: 0 <= i < |vs| ==>
         ws[i].mass == vs[i].mass && ws[i].size == vs[i].size && ws[i].index == vs[i].index
  }

  /** One iteration of the pairwise loop: the body at `at` against the body
      at `j`, which is skipped when it is the body itself, does not touch it,
      or is already in its list. None when the response fails. */
  function ResolveOne(ws: seq<BodyState>, at: nat, j: nat, collide: Collider): (r: Option<seq<BodyState>>)
    requires at < |ws| && j < |ws|
    ensures r.Some? ==> |r.value| == |ws|
  {
    if j == at then Some(ws)
    else
      var s, o := ws[at], ws[j];
      if Contact(s.pos, s.size, o.pos, o.size) && o.index !in s.handled then
        match collide(s, o)
        case None => None
        case Some(pair) => Some(ws[at := pair.0][j := pair.1])
      else Some(ws)
  }

  /** The pairwise loop for the body at `at`, after its first `j` iterations. */
  function ResolveUpTo(vs: seq<BodyState>, at: nat, j: nat, collide: Collider): (r: Option<seq<BodyState>>)
    requires at < |vs| && j <= |vs|
    ensures r.Some? ==> |r.value| == |vs|
    decreases j
  {
    if j == 0 then Some(vs)
    else
      match ResolveUpTo(vs, at, j - 1, collide)
      case None => None
      case Some(ws) => ResolveOne(ws, at, j - 1, collide)
  }

  /** The loop keeps the bodies: every iteration changes only positions,
      speeds and lists. */
  lemma {:induction false} ResolveKeepsBodies(vs: seq<BodyState>, at: nat, j: nat, collide: Collider)
    requires at < |vs| && j <= |vs| && KeepsBodies(collide)
    requires ResolveUpTo(vs, at, j, collide).Some?
    ensures SameBodies(vs, ResolveUpTo(vs, at, j, collide).value)
    decreases j
  {
    if j > 0 {
      ResolveKeepsBodies(vs, at, j - 1, collide);
    }
  }

  /** Iteration `j` of a loop that completes `n > j` iterations succeeds, and
      takes the state after `j` iterations to the state after `j + 1`. */
  lemma ResolveNext(vs: seq<BodyState>, at: nat, j: nat, n: nat, collide: Collider)
    requires at < |vs| && j < n <= |vs|
    requires ResolveUpTo(vs, at, n, collide).Some?
    ensures ResolveUpTo(vs, at, j, collide).Some?
    ensures ResolveOne(ResolveUpTo(vs, at, j, collide).value, at, j, collide) == ResolveUpTo(vs, at, j + 1, collide)
    ensures ResolveUpTo(vs, at, j + 1, collide).Some?
  {
    ResolvePrefixDefined(vs, at, j + 1, n, collide);
  }

  /** Once the loop has failed it stays failed: a loop that completes
      completed each of its prefixes. */
  lemma {:induction false} ResolvePrefixDefined(vs: seq<BodyState>, at: nat, j: nat, k: nat, collide: Collider)
    requires at < |vs| && j <= k <= |vs|
    requires ResolveUpTo(vs, at, k, collide).Some?
    ensures ResolveUpTo(vs, at, j, collide).Some?
    decreases k
  {
    if j < k {
      ResolvePrefixDefined(vs, at, j, k - 1, collide);
    }
  }

  /** The pairwise loop never moves any body but the one being resolved. */
  lemma {:induction false} ResolveMovesOnlySelf(vs: seq<BodyState>, at: nat, j: nat, collide: Collider)
    requires at < |vs| && j <= |vs| && KeepsBodies(collide)
    requires ResolveUpTo(vs, at, j, collide).Some?
    ensures forall i :: 0 <= i < |vs| && i != at ==> ResolveUpTo(vs, at, j, collide).value[i].pos == vs[i].pos
    decreases j
  {
    if j > 0 {
      ResolveMovesOnlySelf(vs, at, j - 1, collide);
    }
  }

  /** Total momentum of a collection of bodies along one axis. */
  function MomentumAxis(vs: seq<BodyState>, i: nat): real
    requires i < 3
  {
    if vs == [] then 0.0 else vs[0].mass * At(vs[0].speed, i) + MomentumAxis(vs[1..], i)
  }

  /** Replacing one body changes the total momentum by the difference of the
      two bodies' momenta. */
  lemma {:induction false} MomentumUpdate(vs: seq<BodyState>, j: nat, x: BodyState, i: nat)
    requires j < |vs| && i < 3
    ensures MomentumAxis(vs[j := x], i)
            == MomentumAxis(vs, i) - vs[j].mass * At(vs[j].speed, i) + x.mass * At(x.speed, i)
  {
    if j == 0 {
      assert vs[j := x][1..] == vs[1..];
    } else {
      assert vs[j := x][1..] == vs[1..][j - 1 := x];
      MomentumUpdate(vs[1..], j - 1, x, i);
    }
  }

  lemma MomentumComponent(sm: real, om: real, a: Vec, b: Vec, c: Vec, e: Vec, i: nat)
    requires i < 3
    requires Add(Scale(sm, a), Scale(om, b)) == Add(Scale(sm, c), Scale(om, e))
    ensures sm * At(a, i) + om * At(b, i) == sm * At(c, i) + om * At(e, i)
  {
    assert At(Add(Scale(sm, a), Scale(om, b)), i) == At(Add(Scale(sm, c), Scale(om, e)), i);
  }

  /** Replacing two distinct bodies by two of the same masses whose joint
      momentum is the same leaves the total momentum unchanged. */
  lemma PairUpdateConservesMomentum(ws: seq<BodyState>, at: nat, k: nat, x: BodyState, y: BodyState, i: nat)
    requires at < |ws| && k < |ws| && at != k && i < 3
    requires x.mass == ws[at].mass && y.mass == ws[k].mass
    requires x.mass * At(x.speed, i) + y.mass * At(y.speed, i) == ws[at].mass * At(ws[at].speed, i) + ws[k].mass * At(ws[k].speed, i)
    ensures MomentumAxis(ws[at := x][k := y], i) == MomentumAxis(ws, i)
  {
    MomentumUpdate(ws, at, x, i);
    assert ws[at := x][k] == ws[k];
    MomentumUpdate(ws[at := x], k, y, i);
  }

  /** One iteration of the pairwise loop conserves total momentum. */
  lemma ResolveOneConservesMomentum(ws: seq<BodyState>, at: nat, k: nat, collide: Collider, i: nat)
    requires at < |ws| && k < |ws| && i < 3
    requires KeepsBodies(collide) && ConservesMomentum(collide)
    requires ResolveOne(ws, at, k, collide).Some?
    ensures MomentumAxis(ResolveOne(ws, at, k, collide).value, i) == MomentumAxis(ws, i)
  {
    var s, o := ws[at], ws[k];
    if k != at && Contact(s.pos, s.size, o.pos, o.size) && o.index !in s.handled {
      var p := collide(s, o).value;
      assert Kept(s, o, p) && MomentumKept(s, o, p);
      MomentumComponent(s.mass, o.mass, p.0.speed, p.1.speed, s.speed, o.speed, i);
      PairUpdateConservesMomentum(ws, at, k, p.0, p.1, i);
    }
  }

  /** The whole pairwise loop of one body conserves the total momentum of
      all bodies, on every axis. */
  lemma {:induction false} ResolveConservesMomentum(vs: seq<BodyState>, at: nat, j: nat, collide: Collider, i: nat)
    requires at < |vs| && j <= |vs| && i < 3
    requires KeepsBodies(collide) && ConservesMomentum(collide)
    requires ResolveUpTo(vs, at, j, collide).Some?
    ensures MomentumAxis(ResolveUpTo(vs, at, j, collide).value, i) == MomentumAxis(vs, i)
    decreases j
  {
    if j > 0 {
      ResolveConservesMomentum(vs, at, j - 1, collide, i);
      ResolveOneConservesMomentum(ResolveUpTo(vs, at, j - 1, collide).value, at, j - 1, collide, i);
    }
  }

  /** While the body at `at` is being resolved, its `handled` list only ever
      gains the indices of bodies the loop has already visited. */
  lemma {:induction false} HandledOnlyVisited(vs: seq<BodyState>, at: nat, j: nat, collide: Collider)
    requires at < |vs| && j <= |vs| && KeepsBodies(collide)
    requires ResolveUpTo(vs, at, j, collide).Some?
    ensures forall x :: x in ResolveUpTo(vs, at, j, collide).value[at].handled ==>
              x in vs[at].handled || exists i :: 0 <= i < j && i != at && x == vs[i].index
    decreases j
  {
    if j > 0 {
      HandledOnlyVisited(vs, at, j - 1, collide);
      ResolveKeepsBodies(vs, at, j - 1, collide);
    }
  }

  /** The guard against resolving a pair twice never fires for a body whose
      list starts empty: when the loop reaches body `j`, its index is not in
      the list, because indices are distinct and only visited bodies were
      added. */
  lemma {:induction false} GuardNeverFires(vs: seq<BodyState>, at: nat, j: nat, collide: Collider)
    requires at < |vs| && j < |vs| && j != at && KeepsBodies(collide)
    requires vs[at].handled == [] && DistinctIndices(vs)
    requires ResolveUpTo(vs, at, j, collide).Some?
    ensures var ws := ResolveUpTo(vs, at, j, collide).value;
            ws[j].index !in ws[at].handled
  {
    HandledOnlyVisited(vs, at, j, collide);
    ResolveKeepsBodies(vs, at, j, collide);
  }
}
