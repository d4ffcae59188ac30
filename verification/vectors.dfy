/**
 * Three-component vectors over the reals and the ray value type.
 * The renderer computes in single-precision floats; this model computes in
 * exact reals, so rounding is not modelled.
 */
module Vectors {

  datatype Vec3 = Vec3(x: real, y: real, z: real)

  /** A ray is an origin and a direction; the direction is not required to
      have unit length. */
  datatype Ray = Ray(position: Vec3, direction: Vec3)

  const Zero: Vec3 := Vec3(0.0, 0.0, 0.0)

  function Splat(s: real): Vec3 {
    Vec3(s, s, s)
  }

  function Add(a: Vec3, b: Vec3): Vec3 {
    Vec3(a.x + b.x, a.y + b.y, a.z + b.z)
  }

  function Sub(a: Vec3, b: Vec3): Vec3 {
    Vec3(a.x - b.x, a.y - b.y, a.z - b.z)
  }

  /** Component-wise product. */
  function Mul(a: Vec3, b: Vec3): Vec3 {
    Vec3(a.x * b.x, a.y * b.y, a.z * b.z)
  }

  function Scale(a: Vec3, s: real): Vec3 {
    Vec3(a.x * s, a.y * s, a.z * s)
  }

  function Dot(a: Vec3, b: Vec3): real {
    a.x * b.x + a.y * b.y + a.z * b.z
  }

  function MinR(a: real, b: real): real {
    if a <= b then a else b
  }

  function MaxR(a: real, b: real): real {
    if a >= b then a else b
  }

  /** Component-wise minimum and maximum. */
  function Min(a: Vec3, b: Vec3): Vec3 {
    Vec3(MinR(a.x, b.x), MinR(a.y, b.y), MinR(a.z, b.z))
  }

  function Max(a: Vec3, b: Vec3): Vec3 {
    Vec3(MaxR(a.x, b.x), MaxR(a.y, b.y), MaxR(a.z, b.z))
  }

  /** Component-wise `a <= b`. */
  predicate LessEq(a: Vec3, b: Vec3) {
    a.x <= b.x && a.y <= b.y && a.z <= b.z
  }

  predicate NonNegative(a: Vec3) {
    LessEq(Zero, a)
  }

  /** Zero is the unit of addition. Stated once here, so that proofs in
      contexts with nonlinear arithmetic need not rederive it. */
  lemma AddZero(a: Vec3)
    ensures Add(a, Zero) == a && Add(Zero, a) == a
  {
  }

  lemma SumNonNegative(a: Vec3, b: Vec3)
    ensures NonNegative(a) && NonNegative(b) ==> NonNegative(Add(a, b))
  {
  }

  /** The point reached after travelling `t` times the direction. */
  function PointAt(ray: Ray, t: real): Vec3 {
    Add(ray.position, Scale(ray.direction, t))
  }

  /** Squared length of `p - q`. */
  function DistanceSquared(p: Vec3, q: Vec3): real {
    Dot(Sub(p, q), Sub(p, q))
  }

  /** Expansion of the squared distance from a point on a ray to a fixed
      point `c`, as a quadratic in the ray parameter. */
  lemma DistanceAlongRay(ray: Ray, t: real, c: Vec3)
    ensures DistanceSquared(PointAt(ray, t), c)
         == t * t * Dot(ray.direction, ray.direction)
          - 2.0 * t * Dot(Sub(c, ray.position), ray.direction)
          + Dot(Sub(c, ray.position), Sub(c, ray.position))
  {
    var d := ray.direction;
    var e := Sub(c, ray.position);
    assert Sub(PointAt(ray, t), c) == Sub(Scale(d, t), e);
    assert (d.x * t - e.x) * (d.x * t - e.x) == t * t * (d.x * d.x) - 2.0 * t * (e.x * d.x) + e.x * e.x;
    assert (d.y * t - e.y) * (d.y * t - e.y) == t * t * (d.y * d.y) - 2.0 * t * (e.y * d.y) + e.y * e.y;
    assert (d.z * t - e.z) * (d.z * t - e.z) == t * t * (d.z * d.z) - 2.0 * t * (e.z * d.z) + e.z * e.z;
  }
}
