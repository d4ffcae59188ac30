/**
 * The older bounding group (src/node.rs): the caller supplies the box, which
 * is neither computed nor checked. Its box test is written as
 * `self.aabb.intersects(ray)`, a method the box type in src/aabb.rs does not
 * define; it is modelled as the slab test `intersects_bounds`.
 */
module LegacyNodes {
  import opened Vectors
  import opened Numerics
  import opened Intersections
  import opened LegacySpheres
  import opened Aabbs
  import Queries

  datatype LegacyNode = LegacyNode(aabb: AABB, objects: seq<LegacySphere>) {

    /** `any(|object| object.intersects(ray).is_some())`. */
    function AnyIntersection(m: Maths, ray: Ray): (r: bool)
      ensures r <==> exists i :: 0 <= i < |objects| && objects[i].Intersects(m, ray).Some?
      ensures r <==> NearestIntersection(m, ray).Some?
    {
      Queries.AnyAgreesWithNearest(LegacySpheres.Probe(m, ray), objects);
      Queries.AnyHit(LegacySpheres.Probe(m, ray), objects)
    }

    /** `filter_map(intersects).min()`. */
    function NearestIntersection(m: Maths, ray: Ray): (r: Option<Intersection<LegacySphere>>)
      ensures Queries.IsNearestHit(LegacySpheres.Probe(m, ray), objects, r)
    {
      Queries.Nearest(LegacySpheres.Probe(m, ray), objects)
    }

    /** The box is tested first; on success the nearest member hit. */
    function Intersects(m: Maths, ray: Ray): (r: Option<Intersection<LegacySphere>>)
      ensures !aabb.IntersectsBounds(m, ray) ==> r.None?
      ensures aabb.IntersectsBounds(m, ray) ==> Queries.IsNearestHit(LegacySpheres.Probe(m, ray), objects, r)
    {
      if aabb.IntersectsBounds(m, ray) then NearestIntersection(m, ray) else None
    }
  }

  /** `Node::new` stores the given box and members unchanged. */
  function New(aabb: AABB, objects: seq<LegacySphere>): (n: LegacyNode)
    ensures n.aabb == aabb && n.objects == objects
  {
    LegacyNode(aabb, objects)
  }
}
