/**
 * The older sphere (src/sphere.rs): it stores the radius and its square and
 * recomputes the bounding-box corners on every call. Its intersection test
 * has the same two guards and the same near root as the current sphere.
 */
module LegacySpheres {
  import opened Vectors
  import opened Numerics
  import opened Intersections
  import Spheres

  datatype LegacySphere = LegacySphere(center: Vec3, radius: real, radiusSquared: real) {

    /** `Bounds::mins` and `Bounds::maxs`, recomputed from center and radius. */
    function Mins(): Vec3 {
      Sub(center, Splat(radius))
    }

    function Maxs(): Vec3 {
      Add(center, Splat(radius))
    }

    /** `Shape::normal`: the normalised offset from the center. */
    function Normal(m: Maths, position: Vec3): Vec3 {
      m.normalize(Sub(position, center))
    }

    /** `Shape::intersects`: `None` when `v < 0`, `None` when the squared
        half-chord is negative, otherwise the near root. */
    function Intersects(m: Maths, ray: Ray): (r: Option<Intersection<LegacySphere>>)
      ensures Dot(Sub(center, ray.position), ray.direction) < 0.0 ==> r.None?
      ensures r.Some? ==> r.value.ray == ray && r.value.shape == this
      ensures r.Some? && SqrtSound(m) ==> r.value.distance <= Dot(Sub(center, ray.position), ray.direction)
    {
      var diff := Sub(center, ray.position);
      var v := Dot(diff, ray.direction);
      if v < 0.0 then
        None
      else
        var distanceSquared := Spheres.HalfChordSquared(radiusSquared, diff, ray.direction);
        if distanceSquared < 0.0 then
          None
        else
          Some(Intersections.New(ray, v - m.sqrt(distanceSquared), this))
    }
  }

  /** `Sphere::new` stores center and radius and caches `radius^2`. */
  function New(center: Vec3, radius: real): (s: LegacySphere)
    ensures s.center == center && s.radius == radius && s.radiusSquared == radius * radius
  {
    LegacySphere(center, radius, radius * radius)
  }

  /** At a surface point of a sphere of positive radius, the normal scaled
      by the radius is the offset from the center: `normal` is the outward
      unit normal there. */
  lemma NormalAtSurface(m: Maths, s: LegacySphere, p: Vec3)
    requires SqrtSound(m) && NormalizeSound(m)
    requires s.radius > 0.0 && s.radiusSquared == s.radius * s.radius
    requires DistanceSquared(p, s.center) == s.radiusSquared
    ensures Scale(s.Normal(m, p), s.radius) == Sub(p, s.center)
  {
    NormalScaledBack(m, Sub(p, s.center), s.radius);
  }

  /** Probing one sphere, as passed to `filter_map` and `any`. */
  function Probe(m: Maths, ray: Ray): LegacySphere -> Option<Intersection<LegacySphere>> {
    (s: LegacySphere) => s.Intersects(m, ray)
  }

  /** The two snapshots agree: built from the same center and radius, the
      corners are the same (recomputed here, cached there), and for every ray
      both report a hit or both report a miss, at the same distance along the
      same ray. */
  lemma AgreesWithCurrentSphere(m: Maths, center: Vec3, radius: real, ray: Ray)
    ensures var a, b := New(center, radius), Spheres.New(center, radius);
      && a.Mins() == b.Mins() && a.Maxs() == b.Maxs()
      && (a.Intersects(m, ray).Some? <==> b.Intersects(m, ray).Some?)
      && (a.Intersects(m, ray).Some? ==>
            && a.Intersects(m, ray).value.distance == b.Intersects(m, ray).value.distance
            && a.Intersects(m, ray).value.ray == b.Intersects(m, ray).value.ray)
  {
    SameQuadraticSameHit(m, New(center, radius), Spheres.New(center, radius), ray);
  }

  /** A legacy and a current sphere with the same center and squared radius
      answer every ray alike. */
  lemma SameQuadraticSameHit(m: Maths, a: LegacySphere, b: Spheres.Sphere, ray: Ray)
    requires a.center == b.center && a.radiusSquared == b.radiusSquared
    ensures a.Intersects(m, ray).Some? <==> b.Intersects(m, ray).Some?
    ensures a.Intersects(m, ray).Some? ==>
      && a.Intersects(m, ray).value.distance == b.Intersects(m, ray).value.distance
      && a.Intersects(m, ray).value.ray == b.Intersects(m, ray).value.ray
  {
    assert b.Projection(ray) == Dot(Sub(a.center, ray.position), ray.direction);
  }

  /** The sphere at (0,0,3) of radius 1 and the ray from the origin along +Z:
      a hit at distance 2 (all that is needed of the square root is that it
      maps 1 to 1, which `SqrtOfOne` derives from `SqrtSound`). */
  lemma CenteredSphereHitAtTwo(m: Maths)
    requires m.sqrt(1.0) == 1.0
    ensures New(Vec3(0.0, 0.0, 3.0), 1.0).Intersects(m, Ray(Zero, Vec3(0.0, 0.0, 1.0))).Some?
    ensures New(Vec3(0.0, 0.0, 3.0), 1.0).Intersects(m, Ray(Zero, Vec3(0.0, 0.0, 1.0))).value.distance == 2.0
  {
    var s := New(Vec3(0.0, 0.0, 3.0), 1.0);
    assert s == LegacySphere(Vec3(0.0, 0.0, 3.0), 1.0, 1.0);
    var ray := Ray(Zero, Vec3(0.0, 0.0, 1.0));
    var diff := Sub(s.center, ray.position);
    assert Dot(diff, ray.direction) == 3.0;
    assert s.radiusSquared - (Dot(diff, diff) - 3.0 * 3.0) == 1.0;
  }

  /** The same sphere with the ray along -Z: the center lies behind, a miss. */
  lemma CenteredSphereMissedBackwards(m: Maths)
    ensures New(Vec3(0.0, 0.0, 3.0), 1.0).Intersects(m, Ray(Zero, Vec3(0.0, 0.0, -1.0))).None?
  {
    var s := New(Vec3(0.0, 0.0, 3.0), 1.0);
    var ray := Ray(Zero, Vec3(0.0, 0.0, -1.0));
    assert Dot(Sub(s.center, ray.position), ray.direction) == -3.0;
  }
}
