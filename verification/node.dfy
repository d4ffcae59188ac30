/**
 * The current bounding group (src/rt/node.rs): the constructor computes the
 * enclosing box of its spheres, and the intersection query tests that box
 * before testing the spheres.
 */
module Nodes {
  import opened Vectors
  import opened Numerics
  import opened Intersections
  import opened Spheres
  import opened Aabbs
  import Bounds
  import Queries

  /** `f32::MAX` and `f32::MIN`, the seeds of the enclosing-box fold. */
  const F32_MAX: real := 340282346638528859811704183484516925440.0
  const F32_MIN: real := -F32_MAX

  datatype Node = Node(aabb: AABB, objects: seq<Sphere>) {

    /** The nearest sphere hit, as `filter_map(intersects).min()`. */
    function NearestIntersection(m: Maths, ray: Ray): (r: Option<Intersection<Sphere>>)
      ensures Queries.IsNearestHit(Spheres.Probe(m, ray), objects, r)
    {
      Queries.Nearest(Spheres.Probe(m, ray), objects)
    }

    /** The box is tested first; only when it passes are the spheres tested. */
    function Intersects(m: Maths, ray: Ray): (r: Option<Intersection<Sphere>>)
      ensures !aabb.IntersectsBounds(m, ray) ==> r.None?
      ensures aabb.IntersectsBounds(m, ray) ==> Queries.IsNearestHit(Spheres.Probe(m, ray), objects, r)
    {
      if aabb.IntersectsBounds(m, ray) then NearestIntersection(m, ray) else None
    }
  }

  /** Probing one node, as passed to `filter_map` and `any` over a scene. */
  function Probe(m: Maths, ray: Ray): Node -> Option<Intersection<Sphere>> {
    (n: Node) => n.Intersects(m, ray)
  }

  /** Every member's corners lie within the box. */
  ghost predicate Encloses(b: AABB, objects: seq<Sphere>) {
    forall i :: 0 <= i < |objects| ==> LessEq(b.Mins(), objects[i].Mins()) && LessEq(objects[i].Maxs(), b.Maxs())
  }

  /** Each box coordinate is the corresponding corner coordinate of some
      member among the first `k`. */
  ghost predicate TightOn(mins: Vec3, maxs: Vec3, objects: seq<Sphere>, k: int)
    requires 0 <= k <= |objects|
  {
    && (exists i :: 0 <= i < k && mins.x == objects[i].Mins().x)
    && (exists i :: 0 <= i < k && mins.y == objects[i].Mins().y)
    && (exists i :: 0 <= i < k && mins.z == objects[i].Mins().z)
    && (exists i :: 0 <= i < k && maxs.x == objects[i].Maxs().x)
    && (exists i :: 0 <= i < k && maxs.y == objects[i].Maxs().y)
    && (exists i :: 0 <= i < k && maxs.z == objects[i].Maxs().z)
  }

  predicate Representable(v: Vec3) {
    F32_MIN <= v.x <= F32_MAX && F32_MIN <= v.y <= F32_MAX && F32_MIN <= v.z <= F32_MAX
  }

  /** All member corners are within the single-precision range. */
  ghost predicate InRange(objects: seq<Sphere>) {
    forall i :: 0 <= i < |objects| ==> Representable(objects[i].Mins()) && Representable(objects[i].Maxs())
  }

  /** `Node::new`: folds the component-wise minimum of the members' `mins`
      from `f32::MAX` and the maximum of their `maxs` from `f32::MIN`, then
      stores the box and the members unchanged. The box encloses every
      member; for members within the single-precision range it is tight; with
      no members it is the inverted box from `MAX` to `MIN`. */
  method New(objects: seq<Sphere>) returns (n: Node)
    ensures n.objects == objects
    ensures Encloses(n.aabb, objects)
    ensures |objects| == 0 ==> n.aabb.Mins() == Splat(F32_MAX) && n.aabb.Maxs() == Splat(F32_MIN)
    ensures |objects| > 0 && InRange(objects) ==> TightOn(n.aabb.Mins(), n.aabb.Maxs(), objects, |objects|)
  {
    var mins := Splat(F32_MAX);
    var maxs := Splat(F32_MIN);
    for k := 0 to |objects|
      invariant forall i :: 0 <= i < k ==> LessEq(mins, objects[i].Mins()) && LessEq(objects[i].Maxs(), maxs)
      invariant k == 0 ==> mins == Splat(F32_MAX) && maxs == Splat(F32_MIN)
      invariant k > 0 && InRange(objects) ==> TightOn(mins, maxs, objects, k)
    {
      mins := Min(mins, objects[k].Mins());
      maxs := Max(maxs, objects[k].Maxs());
    }
    n := Node(Aabbs.New(mins, maxs), objects);
  }

  /** A member's hit passes the node's box test, provided the box encloses
      the member (for a unit direction with no zero component, where the
      division in the slab test is exact). */
  lemma MemberHitPassesBox(m: Maths, n: Node, i: int, ray: Ray)
    requires SqrtSound(m) && DivSound(m)
    requires Dot(ray.direction, ray.direction) == 1.0 && Bounds.Oblique(ray.direction)
    requires 0 <= i < |n.objects| && n.objects[i].Valid() && Encloses(n.aabb, n.objects)
    ensures n.objects[i].Intersects(m, ray).Some? ==> n.aabb.IntersectsBounds(m, ray)
  {
    var s := n.objects[i];
    if s.Intersects(m, ray).Some? {
      var t := s.Intersects(m, ray).value.distance;
      HitWithinCorners(m, s, ray);
      assert LessEq(n.aabb.Mins(), PointAt(ray, t)) && LessEq(PointAt(ray, t), n.aabb.Maxs());
      Bounds.PointInBoxPassesSlabTest(m, n.aabb.Mins(), n.aabb.Maxs(), ray, t);
    }
  }

  /** Culling never loses a hit: for a node whose box encloses its valid
      members, the box-first query answers exactly what testing every member
      answers. */
  lemma CullingKeepsEveryHit(m: Maths, n: Node, ray: Ray)
    requires SqrtSound(m) && DivSound(m)
    requires Dot(ray.direction, ray.direction) == 1.0 && Bounds.Oblique(ray.direction)
    requires Encloses(n.aabb, n.objects)
    requires forall i :: 0 <= i < |n.objects| ==> n.objects[i].Valid()
    ensures n.Intersects(m, ray) == n.NearestIntersection(m, ray)
  {
    if !n.aabb.IntersectsBounds(m, ray) {
      forall i | 0 <= i < |n.objects|
        ensures n.objects[i].Intersects(m, ray).Some? ==> n.aabb.IntersectsBounds(m, ray)
      {
        MemberHitPassesBox(m, n, i, ray);
      }
      assert forall i :: 0 <= i < |n.objects| ==> Spheres.Probe(m, ray)(n.objects[i]).None?;
    }
  }
}
