/** The placement rule of `randomize_balls` in bouncing_balls.py: balls are
    drawn one after the other and a ball is kept only when it touches none of
    the balls kept before it. The random draws are given as a sequence of
    candidates. */
module Placement {
  import opened Vectors
  import opened Physics
  import opened Simulation

  /** One random draw: a size, a position and an initial velocity. */
  datatype Candidate = Candidate(size: real, pos: Vec, initVel: Vec)

  /** The ball a draw describes: a solid sphere whose mass is its size cubed. */
  function Ball(c: Candidate): Descriptor
  {
    Descriptor(c.size * c.size * c.size, c.size, c.pos, Some(c.initVel))
  }

  /** `b` touches one of `data`. */
  predicate Touches(b: Descriptor, data: seq<Descriptor>)
  {
    exists i :: 0 <= i < |data| && Contact(b.pos, b.size, data[i].pos, data[i].size)
  }

  /** The balls kept from the draws `cs`, taken in order. */
  function Admitted(cs: seq<Candidate>): seq<Descriptor>
  {
    if cs == [] then []
    else
      var kept := Admitted(cs[..|cs| - 1]);
      var b := Ball(cs[|cs| - 1]);
      if Touches(b, kept) then kept else kept + [b]
  }

  /** No two balls of `data` touch. */
  predicate Separated(data: seq<Descriptor>)
  {
    forall i, j :: 0 <= i < j < |data| ==> !Contact(data[i].pos, data[i].size, data[j].pos, data[j].size)
  }

  /** `b` is the ball of one of the draws `cs`. */
  predicate BallOf(b: Descriptor, cs: seq<Candidate>)
  {
    exists k :: 0 <= k < |cs| && b == Ball(cs[k])
  }

  /** Every ball of `data` is one of the draws `cs`. */
  predicate Drawn(data: seq<Descriptor>, cs: seq<Candidate>)
  {
    forall i :: 0 <= i < |data| ==> BallOf(data[i], cs)
  }

  /** Every ball of `data` has mass its size cubed. */
  predicate Solid(data: seq<Descriptor>)
  {
    forall i :: 0 <= i < |data| ==> data[i].mass == data[i].size * data[i].size * data[i].size
  }

  /** The balls of a placement: drawn from `cs`, solid, and pairwise apart. */
  predicate Placed(data: seq<Descriptor>, cs: seq<Candidate>)
  {
    Drawn(data, cs) && Solid(data) && Separated(data)
  }

  /** The kept balls pairwise do not touch, are drawn from `cs` and solid,
      and there are no more of them than draws. */
  lemma {:induction false} AdmittedSeparated(cs: seq<Candidate>)
    ensures Placed(Admitted(cs), cs)
    ensures |Admitted(cs)| <= |cs|
  {
    if cs != [] {
      var last := |cs| - 1;
      var kept := Admitted(cs[..last]);
      AdmittedSeparated(cs[..last]);
      DrawnFromPrefix(kept, cs, last);
      if !Touches(Ball(cs[last]), kept) {
        AppendSeparated(kept, Ball(cs[last]));
        AppendSolid(kept, cs[last]);
        AppendDrawn(kept, cs, last);
      }
    }
  }

  /** A ball touching none of a separated set can join it. */
  lemma AppendSeparated(kept: seq<Descriptor>, b: Descriptor)
    requires Separated(kept) && !Touches(b, kept)
    ensures Separated(kept + [b])
  {
    var r := kept + [b];
    forall i, j | 0 <= i < j < |r|
      ensures !Contact(r[i].pos, r[i].size, r[j].pos, r[j].size)
    {
      if j == |kept| {
        ContactSymmetric(b.pos, b.size, r[i].pos, r[i].size);
      } else {
        assert r[i] == kept[i] && r[j] == kept[j];
      }
    }
  }

  /** A drawn ball keeps a solid set solid. */
  lemma AppendSolid(kept: seq<Descriptor>, c: Candidate)
    requires Solid(kept)
    ensures Solid(kept + [Ball(c)])
  {
    var r := kept + [Ball(c)];
    forall i | 0 <= i < |r|
      ensures r[i].mass == r[i].size * r[i].size * r[i].size
    {
      if i < |kept| {
        assert r[i] == kept[i];
      }
    }
  }

  /** The ball of one of the draws keeps a set drawn from them drawn. */
  lemma AppendDrawn(kept: seq<Descriptor>, cs: seq<Candidate>, k: nat)
    requires k < |cs| && Drawn(kept, cs)
    ensures Drawn(kept + [Ball(cs[k])], cs)
  {
    var r := kept + [Ball(cs[k])];
    forall i | 0 <= i < |r|
      ensures BallOf(r[i], cs)
    {
      if i < |kept| {
        assert r[i] == kept[i];
      } else {
        assert r[i] == Ball(cs[k]);
      }
    }
  }

  /** Balls drawn from a prefix of the draws are drawn from all of them. */
  lemma DrawnFromPrefix(data: seq<Descriptor>, cs: seq<Candidate>, used: nat)
    requires used <= |cs| && Drawn(data, cs[..used])
    ensures Drawn(data, cs)
  {
    forall i | 0 <= i < |data|
      ensures BallOf(data[i], cs)
    {
      assert BallOf(data[i], cs[..used]);
      var k :| 0 <= k < used && data[i] == Ball(cs[..used][k]);
      assert cs[..used][k] == cs[k];
    }
  }

  /** The draws `candidates` are tried in order until `count` balls are kept or
      the draws run out; `used` is the number of draws tried. The kept balls
      are the admitted ones of the draws tried, so they pairwise do not touch
      and each has mass its size cubed. */
  method RandomizeBalls(count: nat, candidates: seq<Candidate>, norm: Vec -> real)
    returns (data: seq<Descriptor>, used: nat)
    requires IsNorm(norm)
    ensures used <= |candidates| && data == Admitted(candidates[..used])
    ensures |data| == count || (used == |candidates| && |data| < count)
    ensures Placed(data, candidates)
  {
    data := [];
    used := 0;
    while |data| < count && used < |candidates|
      invariant used <= |candidates| && |data| <= count
      invariant data == Admitted(candidates[..used])
    {
      var ball := Ball(candidates[used]);
      var touching := TouchesAny(ball, data, norm);
      if !touching {
        data := data + [ball];
      }
      assert candidates[..used + 1][..used] == candidates[..used];
      used := used + 1;
    }
    AdmittedSeparated(candidates[..used]);
    DrawnFromPrefix(data, candidates, used);
  }

  /** The inner loop of `RandomizeBalls`: whether `ball` touches a ball of
      `data`, by the distance between centres. */
  method TouchesAny(ball: Descriptor, data: seq<Descriptor>, norm: Vec -> real) returns (touching: bool)
    requires IsNorm(norm)
    ensures touching <==> Touches(ball, data)
  {
    touching := false;
    var n := 0;
    while n < |data|
      invariant n <= |data|
      invariant touching <==> Touches(ball, data[..n])
    {
      var b := data[n];
      var dist := norm(Sub(ball.pos, b.pos));
      ContactIffDistanceBelow(ball.pos, ball.size, b.pos, b.size, dist);
      if dist < ball.size + b.size {
        touching := true;
      }
      assert data[..n + 1] == data[..n] + [b];
      n := n + 1;
    }
    assert data[..n] == data;
  }
}
