/**
 * The numeric primitives the renderer takes from its vector library, kept
 * abstract: a square root, vector normalisation, the shininess power
 * `x.powi(50)` and floating-point division. They are passed around as a
 * `Maths` record; the predicates below state the little that the proofs
 * need to know about them, and each proof assumes only the ones it uses.
 */
module Numerics {
  import opened Vectors

  /** The reals extended with two infinities, as produced by a floating-point
      division by zero. NaN is not modelled. */
  datatype ExtReal = NegInf | Fin(v: real) | PosInf

  /** Strict order of the extended reals. */
  predicate Lt(a: ExtReal, b: ExtReal) {
    match (a, b)
    case (NegInf, NegInf) => false
    case (NegInf, _) => true
    case (Fin(p), Fin(q)) => p < q
    case (Fin(_), PosInf) => true
    case (_, _) => false
  }

  predicate Le(a: ExtReal, b: ExtReal) {
    !Lt(b, a)
  }

  function Lower(a: ExtReal, b: ExtReal): ExtReal {
    if Lt(b, a) then b else a
  }

  function Upper(a: ExtReal, b: ExtReal): ExtReal {
    if Lt(a, b) then b else a
  }

  datatype Maths = Maths(
    sqrt: real -> real,
    normalize: Vec3 -> Vec3,
    powi50: real -> real,
    div: (real, real) -> ExtReal)

  /** `sqrt` returns the non-negative square root of a non-negative argument. */
  ghost predicate SqrtSound(m: Maths) {
    forall x: real :: x >= 0.0 ==> m.sqrt(x) >= 0.0 && m.sqrt(x) * m.sqrt(x) == x
  }

  /** The 50th power of a positive number is not negative (it may underflow
      to zero). */
  ghost predicate PowSound(m: Maths) {
    forall x: real :: x > 0.0 ==> m.powi50(x) >= 0.0
  }

  /** `normalize` of a non-zero vector, scaled back by its length, gives
      the vector again: it is the vector divided by its length. */
  ghost predicate NormalizeSound(m: Maths) {
    forall v: Vec3 :: Dot(v, v) > 0.0 ==> Scale(m.normalize(v), m.sqrt(Dot(v, v))) == v
  }

  /** Division by a non-zero number is exact; division by zero is left open. */
  ghost predicate DivSound(m: Maths) {
    forall n: real, d: real :: d != 0.0 ==> m.div(n, d) == Fin(n / d)
  }

  /** Under `SqrtSound`, the square root of 1 is 1. */
  lemma SqrtOfOne(m: Maths)
    requires SqrtSound(m)
    ensures m.sqrt(1.0) == 1.0
  {
    SqrtOfSquare(m, 1.0);
  }

  /** Under `SqrtSound`, the square root of `r * r` is `r` for `r >= 0`. */
  lemma SqrtOfSquare(m: Maths, r: real)
    requires SqrtSound(m) && r >= 0.0
    ensures m.sqrt(r * r) == r
  {
    SquareNonNegative(r);
    var s := m.sqrt(r * r);
    assert s >= 0.0 && s * s == r * r;
    if s < r {
      SquareStrictlyMonotone(s, r);
    } else if r < s {
      SquareStrictlyMonotone(r, s);
    }
  }

  /** A vector of length `r > 0`, normalised and scaled back by `r`, is
      itself. */
  lemma NormalScaledBack(m: Maths, e: Vec3, r: real)
    requires SqrtSound(m) && NormalizeSound(m)
    requires r > 0.0 && Dot(e, e) == r * r
    ensures Scale(m.normalize(e), r) == e
  {
    SquareStrictlyMonotone(0.0, r);
    SqrtOfSquare(m, r);
  }

  /** Squaring is strictly increasing on the non-negative reals. */
  lemma SquareStrictlyMonotone(a: real, b: real)
    requires 0.0 <= a < b
    ensures a * a < b * b
  {
    assert b * b - a * a == (b - a) * (b + a);
    assert b + a > 0.0 && b - a > 0.0;
  }

  /** Real arithmetic: the product of two negatives is positive. */
  lemma NegativeProduct(x: real, y: real)
    ensures x < 0.0 && y < 0.0 ==> x * y > 0.0
  {
    if x < 0.0 && y < 0.0 {
      assert (-x) * (-y) > 0.0;
    }
  }

  /** Real arithmetic: `a^2 <= r^2` with `r >= 0` keeps `a` at least `-r`. */
  lemma SquareBelowSquare(a: real, r: real)
    requires r >= 0.0 && a * a <= r * r
    ensures -r <= a
  {
    NegativeProduct(a - r, a + r);
    assert a * a - r * r == (a - r) * (a + r);
  }

  lemma SquareNonNegative(a: real)
    ensures a * a >= 0.0
  {
    if a < 0.0 {
      assert a * a == (-a) * (-a);
    }
  }

  /** Completing the square of a monic quadratic in `t`. */
  lemma ShiftedSquare(t: real, v: real, dd: real, e: real, q: real)
    requires dd == 1.0 && q == t * t * dd - 2.0 * t * v + e
    ensures q == (t - v) * (t - v) + (e - v * v)
  {
  }

  lemma SquareOfNegation(a: real)
    ensures (-a) * (-a) == a * a
  {
  }

  /** Squares order non-negative numbers. */
  lemma SquareOrdersNonNegative(a: real, b: real)
    requires a >= 0.0 && b >= 0.0 && a * a < b * b
    ensures a < b
  {
    SquareMonotone(b, a);
  }

  lemma SquareMonotone(a: real, b: real)
    ensures 0.0 <= a <= b ==> a * a <= b * b
  {
    if 0.0 <= a <= b {
      assert a * a <= a * b <= b * b;
    }
  }

  /** A quantity that exceeds `r - disc` by a square exceeds `r` when
      `disc` is negative. */
  lemma AboveWhenNegative(t: real, v: real, q: real, r: real, disc: real)
    ensures q == (t - v) * (t - v) + (r - disc) && disc < 0.0 ==> q > r
  {
    SquareNonNegative(t - v);
  }

  /** A point whose squared offset `(t - v)^2` from `v` fits in `disc` is
      not before the near root `v - sqrt(disc)`. */
  lemma NotBeforeNearRoot(m: Maths, t: real, v: real, q: real, r: real, disc: real)
    ensures SqrtSound(m) && disc >= 0.0 && q == (t - v) * (t - v) + (r - disc) && q <= r ==> v - m.sqrt(disc) <= t
  {
    if SqrtSound(m) && disc >= 0.0 && q == (t - v) * (t - v) + (r - disc) && q <= r {
      var root := m.sqrt(disc);
      assert root >= 0.0 && root * root == disc;
      assert (t - v) * (t - v) <= disc;
      SquareBelowSquare(t - v, root);
    }
  }

  /** At the near root `v - sqrt(disc)` the squared offset from `v` is
      `disc`. */
  lemma AtNearRoot(m: Maths, t: real, v: real, q: real, r: real, disc: real)
    ensures SqrtSound(m) && disc >= 0.0 && q == (t - v) * (t - v) + (r - disc) && t == v - m.sqrt(disc) ==> q == r
  {
    if SqrtSound(m) && disc >= 0.0 && q == (t - v) * (t - v) + (r - disc) && t == v - m.sqrt(disc) {
      var root := m.sqrt(disc);
      assert root * root == disc;
      SquareOfNegation(root);
    }
  }
}
