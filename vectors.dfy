/** Three-dimensional vectors over the reals, standing in for the numpy arrays
    that hold positions and speeds. */
module Vectors {

  /** A position or a velocity: one component per axis. */
  datatype Vec = Vec(x: real, y: real, z: real)

  const Zero: Vec := Vec(0.0, 0.0, 0.0)

  function Add(a: Vec, b: Vec): Vec
  {
    Vec(a.x + b.x, a.y + b.y, a.z + b.z)
  }

  function Sub(a: Vec, b: Vec): Vec
  {
    Vec(a.x - b.x, a.y - b.y, a.z - b.z)
  }

  function Scale(k: real, a: Vec): Vec
  {
    Vec(k * a.x, k * a.y, k * a.z)
  }

  function Dot(a: Vec, b: Vec): real
  {
    a.x * b.x + a.y * b.y + a.z * b.z
  }

  /** Squared Euclidean distance between two points. */
  function DistSq(p: Vec, q: Vec): real
  {
    Dot(Sub(p, q), Sub(p, q))
  }

  /** The component on axis `i` (0 is x, 1 is y, 2 is z), as `v[i]` reads it. */
  function At(v: Vec, i: nat): real
    requires i < 3
  {
    if i == 0 then v.x else if i == 1 then v.y else v.z
  }

  /** `v` with the component on axis `i` replaced, as `v[i] = a` writes it. */
  function With(v: Vec, i: nat, a: real): (r: Vec)
    requires i < 3
    ensures At(r, i) == a
    ensures forall k :: 0 <= k < 3 && k != i ==> At(r, k) == At(v, k)
  {
    if i == 0 then v.(x := a) else if i == 1 then v.(y := a) else v.(z := a)
  }

  /** `norm` is the Euclidean length, as numpy's linalg.norm computes it: it
      is zero on the zero vector only, positive elsewhere, and its square is the
      dot product of the vector with itself. */
  ghost predicate IsNorm(norm: Vec -> real)
  {
    forall v: Vec ::
      && (if v == Zero then norm(v) == 0.0 else norm(v) > 0.0)
      && norm(v) * norm(v) == Dot(v, v)
  }

  /** The difference of two points is the zero vector only when they coincide. */
  lemma {:induction false} SubZero(a: Vec, b: Vec)
    ensures Sub(a, b) == Zero <==> a == b
  {
    if Sub(a, b) == Zero {
      assert a.x - b.x == 0.0 && a.y - b.y == 0.0 && a.z - b.z == 0.0;
    }
  }

  /** Strict monotonicity of squaring on the non-negative reals, one direction. */
  lemma SquareLess(n: real, s: real)
    requires 0.0 <= n < s
    ensures n * n < s * s
  {
    var a, b := s - n, s + n;
    assert a * b > 0.0;
    assert s * s - n * n == a * b;
  }

  /** Monotonicity of squaring on the non-negative reals, the other direction. */
  lemma SquareAtLeast(n: real, s: real)
    requires 0.0 <= s <= n
    ensures s * s <= n * n
  {
    var a, b := n - s, n + s;
    assert a * b >= 0.0;
    assert n * n - s * s == a * b;
  }

  /** Dividing a non-zero vector by its length gives a vector of length one. */
  lemma {:induction false} UnitDirection(diff: Vec, n: real)
    requires n != 0.0 && n * n == Dot(diff, diff)
    ensures Dot(Scale(1.0 / n, diff), Scale(1.0 / n, diff)) == 1.0
  {
    var q := 1.0 / n;
    assert q * n == 1.0;
    calc {
      Dot(Scale(q, diff), Scale(q, diff));
      q * diff.x * (q * diff.x) + q * diff.y * (q * diff.y) + q * diff.z * (q * diff.z);
      (q * q) * Dot(diff, diff);
      (q * q) * (n * n);
      (q * n) * (q * n);
      1.0;
    }
  }

  /** Adding a multiple of `d` changes the projection on `t` by that multiple
      of d·t. */
  lemma {:induction false} DotAddScale(a: Vec, k: real, d: Vec, t: Vec)
    ensures Dot(Add(a, Scale(k, d)), t) == Dot(a, t) + k * Dot(d, t)
  {
    assert Add(a, Scale(k, d)) == Vec(a.x + k * d.x, a.y + k * d.y, a.z + k * d.z);
  }
}
