/** Three-component vectors over the reals and the operators of vector.cpp
    (sum, difference, scaling, division by a scalar, cross and dot product),
    plus the linear blend `a * (1 - t) + b * t` the interpolator builds on. */
module Vectors {

  datatype Vec = Vec(x: real, y: real, z: real)

  const Zero: Vec := Vec(0.0, 0.0, 0.0)

  /** `operator+`: component-wise sum. */
  function Add(a: Vec, b: Vec): Vec
  {
    Vec(a.x + b.x, a.y + b.y, a.z + b.z)
  }

  /** `operator-`: component-wise difference. */
  function Sub(a: Vec, b: Vec): Vec
  {
    Vec(a.x - b.x, a.y - b.y, a.z - b.z)
  }

  /** Unary minus, used to state anti-commutativity of the cross product. */
  function Neg(a: Vec): Vec
  {
    Vec(-a.x, -a.y, -a.z)
  }

  /** `operator*(vector, double)`: every component scaled by `s`. */
  function Scale(a: Vec, s: real): Vec
  {
    Vec(a.x * s, a.y * s, a.z * s)
  }

  /** `operator/(vector, double)`: every component divided by `s`; scaling by `s` undoes it. */
  function Div(a: Vec, s: real): (r: Vec)
    requires s != 0.0
    ensures Scale(r, s) == a
  {
    Vec(a.x / s, a.y / s, a.z / s)
  }

  /** `operator%`: dot product. */
  function Dot(a: Vec, b: Vec): real
  {
    a.x * b.x + a.y * b.y + a.z * b.z
  }

  /** `operator*(vector, vector)`: cross product, orthogonal to both arguments. */
  function Cross(a: Vec, b: Vec): (r: Vec)
    ensures Dot(a, r) == 0.0
    ensures Dot(b, r) == 0.0
  {
    Vec(a.y * b.z - a.z * b.y, a.z * b.x - a.x * b.z, a.x * b.y - a.y * b.x)
  }

  /** The blend `a * (1 - t) + b * t` written with the operators above, as the
      interpolator writes it. */
  function Lerp(a: Vec, b: Vec, t: real): Vec
  {
    Add(Scale(a, 1.0 - t), Scale(b, t))
  }

  // ---------------------------------------------------------------------------
  // Algebraic laws of the operators
  // ---------------------------------------------------------------------------

  /** Subtraction and addition undo each other, and a difference is zero
      exactly when the two vectors are equal. */
  lemma AddSubCancel(a: Vec, b: Vec)
    ensures Sub(Add(a, b), b) == a
    ensures Add(Sub(a, b), b) == a
    ensures Sub(a, b) == Zero <==> a == b
  {
  }

  /** The blend is `a` at 0 and `b` at 1. */
  lemma LerpEndpoints(a: Vec, b: Vec)
    ensures Lerp(a, b, 0.0) == a
    ensures Lerp(a, b, 1.0) == b
  {
  }

  /** The blend moves the fraction `t` of the way from `a` to `b`. */
  lemma LerpMovesFraction(a: Vec, b: Vec, t: real)
    ensures Sub(Lerp(a, b, t), a) == Scale(Sub(b, a), t)
  {
    var l, d := Lerp(a, b, t), Sub(b, a);
    assert l.x - a.x == d.x * t by { ScalarBlendMoves(a.x, b.x, l.x, t); }
    assert l.y - a.y == d.y * t by { ScalarBlendMoves(a.y, b.y, l.y, t); }
    assert l.z - a.z == d.z * t by { ScalarBlendMoves(a.z, b.z, l.z, t); }
  }

  lemma ScalarBlendMoves(a: real, b: real, c: real, t: real)
    requires c == a * (1.0 - t) + b * t
    ensures c - a == (b - a) * t
  {
  }

  lemma ScaleDivCancel(a: Vec, s: real)
    requires s != 0.0
    ensures Div(Scale(a, s), s) == a
  {
    var r := Div(Scale(a, s), s);
    assert r.x == a.x * s / s;
    assert r.y == a.y * s / s;
    assert r.z == a.z * s / s;
  }

  lemma CrossAntiCommutative(a: Vec, b: Vec)
    ensures Cross(a, b) == Neg(Cross(b, a))
    ensures Cross(a, a) == Zero
  {
  }

  lemma DotCommutative(a: Vec, b: Vec)
    ensures Dot(a, b) == Dot(b, a)
  {
  }

  lemma DotBilinear(a: Vec, b: Vec, c: Vec, s: real)
    ensures Dot(Add(a, b), c) == Dot(a, c) + Dot(b, c)
    ensures Dot(a, Add(b, c)) == Dot(a, b) + Dot(a, c)
    ensures Dot(Scale(a, s), b) == s * Dot(a, b)
    ensures Dot(a, Scale(b, s)) == s * Dot(a, b)
  {
  }

  // ---------------------------------------------------------------------------
  // Betweenness of a blend
  // ---------------------------------------------------------------------------

  /** `c` lies between `a` and `b`. */
  predicate InRange(a: real, b: real, c: real)
  {
    (a <= c <= b) || (b <= c <= a)
  }

  /** `c` lies strictly between `a` and `b`, or all three coincide. */
  predicate StrictlyInRange(a: real, b: real, c: real)
  {
    if a == b then c == a else (a < c < b) || (b < c < a)
  }

  /** Every component of `c` lies strictly between the components of `a` and `b`. */
  predicate StrictlyBetween(a: Vec, b: Vec, c: Vec)
  {
    && StrictlyInRange(a.x, b.x, c.x)
    && StrictlyInRange(a.y, b.y, c.y)
    && StrictlyInRange(a.z, b.z, c.z)
  }

  lemma ScalarBlendStrictlyBetween(a: real, b: real, t: real)
    requires 0.0 < t < 1.0
    ensures StrictlyInRange(a, b, a * (1.0 - t) + b * t)
  {
    var u := 1.0 - t;
    var c := a * u + b * t;
    var d := b - a;
    assert c == a + d * t;
    assert c == b - d * u;
    if a < b {
      PositiveProduct(d, t);
      PositiveProduct(d, u);
      assert a < c;
      assert c < b;
    } else if b < a {
      PositiveProduct(-d, t);
      PositiveProduct(-d, u);
      assert c < a;
      assert b < c;
    } else {
      assert c == a;
    }
  }

  lemma PositiveProduct(p: real, q: real)
    requires p > 0.0 && q > 0.0
    ensures p * q > 0.0
    ensures (-p) * q == -(p * q)
  {
  }

  /** For `0 < t < 1` the blend of two vectors lies strictly inside the box they span. */
  lemma {:induction false} LerpStrictlyBetween(a: Vec, b: Vec, t: real)
    requires 0.0 < t < 1.0
    ensures StrictlyBetween(a, b, Lerp(a, b, t))
  {
    ScalarBlendStrictlyBetween(a.x, b.x, t);
    ScalarBlendStrictlyBetween(a.y, b.y, t);
    ScalarBlendStrictlyBetween(a.z, b.z, t);
  }
}
