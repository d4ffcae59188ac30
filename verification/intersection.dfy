/**
 * The result of a successful ray/shape test (src/intersection.rs): the ray,
 * the distance along it and the object hit (field `shape`, since `object`
 * is a Dafny keyword), ordered by distance alone.
 * The object type is a parameter because both snapshots of the renderer
 * build intersections, each with its own sphere type.
 */
module Intersections {
  import opened Vectors

  datatype Ordering = Less | Equal | Greater

  datatype Option<T> = None | Some(value: T)

  datatype Intersection<S> = Intersection(ray: Ray, distance: real, shape: S)

  /** `Intersection::new` keeps all three parts as given. */
  function New<S>(ray: Ray, distance: real, shape: S): (i: Intersection<S>)
    ensures i.ray == ray && i.distance == distance && i.shape == shape
  {
    Intersection(ray, distance, shape)
  }

  /** The point `position + direction * distance`. */
  function HitPoint<S>(i: Intersection<S>): (p: Vec3)
    ensures i.distance == 0.0 ==> p == i.ray.position
    ensures Sub(p, i.ray.position) == Scale(i.ray.direction, i.distance)
  {
    Add(i.ray.position, Scale(i.ray.direction, i.distance))
  }

  /** For a unit-length direction, the hit point lies `distance` away from the
      ray origin (in absolute value). */
  lemma HitPointAtDistance<S>(i: Intersection<S>)
    requires Dot(i.ray.direction, i.ray.direction) == 1.0
    ensures DistanceSquared(HitPoint(i), i.ray.position) == i.distance * i.distance
  {
    var d := i.ray.direction;
    var t := i.distance;
    assert Sub(HitPoint(i), i.ray.position) == Scale(d, t);
    calc {
      Dot(Scale(d, t), Scale(d, t));
      (d.x * t) * (d.x * t) + (d.y * t) * (d.y * t) + (d.z * t) * (d.z * t);
      t * t * Dot(d, d);
    }
  }

  /** `Ord::cmp`: `Less` exactly when strictly nearer, otherwise `Greater`;
      `Equal` is never produced. */
  function Cmp<S>(a: Intersection<S>, b: Intersection<S>): (r: Ordering)
    ensures r == Less <==> a.distance < b.distance
    ensures r == Greater <==> a.distance >= b.distance
    ensures r != Equal
  {
    if a.distance < b.distance then Less else Greater
  }

  /** `PartialOrd::partial_cmp` always answers, with `cmp`'s answer. */
  function PartialCmp<S>(a: Intersection<S>, b: Intersection<S>): (r: Option<Ordering>)
    ensures r.Some? && r.value != Equal
    ensures r.value == Less <==> a.distance < b.distance
  {
    Some(Cmp(a, b))
  }

  /** `PartialEq::eq` compares distances only; ray and object are ignored.
      Two intersections are equal exactly when `cmp` calls each greater than
      the other. */
  function Eq<S>(a: Intersection<S>, b: Intersection<S>): (r: bool)
    ensures r <==> Cmp(a, b) == Greater && Cmp(b, a) == Greater
  {
    a.distance == b.distance
  }

  /** The ordering is not a lawful total order: on equal distances both
      directions answer `Greater`, an intersection is `Greater` than itself,
      and `eq` holding does not make `cmp` answer `Equal`. */
  lemma CmpNotAntisymmetric<S>(a: Intersection<S>, b: Intersection<S>)
    requires a.distance == b.distance
    ensures Cmp(a, b) == Greater && Cmp(b, a) == Greater
    ensures Cmp(a, a) == Greater
    ensures Eq(a, b) && Cmp(a, b) != Equal
  {
  }

  /** `std::cmp::min_by(a, b, cmp)`: keeps `a` unless `cmp(a, b)` is
      `Greater`, so on equal distances the later argument `b` wins. */
  function MinBy<S>(a: Intersection<S>, b: Intersection<S>): (r: Intersection<S>)
    ensures r == a || r == b
    ensures r.distance <= a.distance && r.distance <= b.distance
    ensures a.distance == b.distance ==> r == b
  {
    match Cmp(a, b)
    case Less => a
    case Equal => a
    case Greater => b
  }
}
