/**
 * Axis-aligned boxes (src/aabb.rs). The constructor stores the corners as
 * given and checks nothing, so an inverted box is representable.
 */
module Aabbs {
  import opened Vectors
  import opened Numerics
  import Bounds

  datatype AABB = AABB(mins: Vec3, maxs: Vec3) {

    /** `Bounds::mins` and `Bounds::maxs` return the stored corners. */
    function Mins(): Vec3 { mins }

    function Maxs(): Vec3 { maxs }

    /** The trait's default slab test applied to the stored corners. */
    function IntersectsBounds(m: Maths, ray: Ray): (r: bool)
      ensures r <==> Bounds.SharedParameter(
        Bounds.Quotients(m, Sub(Mins(), ray.position), ray.direction),
        Bounds.Quotients(m, Sub(Maxs(), ray.position), ray.direction))
    {
      Bounds.IntersectsBounds(m, Mins(), Maxs(), ray)
    }
  }

  /** `AABB::new` keeps both corners, in order, without checking them. */
  function New(mins: Vec3, maxs: Vec3): (b: AABB)
    ensures b.Mins() == mins && b.Maxs() == maxs
  {
    AABB(mins, maxs)
  }

  /** An inverted box is stored as given. */
  lemma NewKeepsInvertedBox()
    ensures var b := New(Splat(1.0), Splat(-1.0)); !LessEq(b.Mins(), b.Maxs())
  {
  }
}
