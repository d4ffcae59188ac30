/**
 * The current sphere (src/rt/sphere.rs): the constructor caches the squared
 * radius and the bounding-box corners; the intersection test keeps only the
 * near root of the ray/sphere quadratic.
 */
module Spheres {
  import opened Vectors
  import opened Numerics
  import opened Intersections

  datatype Sphere = Sphere(center: Vec3, radiusSquared: real, mins: Vec3, maxs: Vec3) {

    /** `Bounds::mins` and `Bounds::maxs` return the cached corners. */
    function Mins(): Vec3 { mins }

    function Maxs(): Vec3 { maxs }

    /** `Shape::normal`: the normalised offset from the center. */
    function Normal(m: Maths, position: Vec3): Vec3 {
      m.normalize(Sub(position, center))
    }

    /** Projection of the center offset on the ray direction. */
    function Projection(ray: Ray): real {
      Dot(Sub(center, ray.position), ray.direction)
    }

    /** The discriminant of this sphere along the ray. */
    function Discriminant(ray: Ray): real {
      HalfChordSquared(radiusSquared, Sub(center, ray.position), ray.direction)
    }

    /** `Shape::intersects`: no hit when the center lies behind the origin
        along the direction, no hit when the discriminant is negative,
        otherwise the near root `v - sqrt(discriminant)` with this sphere and
        the given ray. A negative distance is not discarded. */
    function Intersects(m: Maths, ray: Ray): (r: Option<Intersection<Sphere>>)
      ensures Projection(ray) < 0.0 ==> r.None?
      ensures Projection(ray) >= 0.0 ==> (r.Some? <==> Discriminant(ray) >= 0.0)
      ensures r.Some? ==> r.value.ray == ray && r.value.shape == this
      ensures r.Some? && SqrtSound(m) ==> r.value.distance <= Projection(ray)
    {
      var v := Projection(ray);
      if v < 0.0 then
        None
      else
        var discriminant := Discriminant(ray);
        if discriminant < 0.0 then
          None
        else
          Some(Intersections.New(ray, v - m.sqrt(discriminant), this))
    }

    /** The sphere was built by `New` from its center and a non-negative
        radius: the caches agree with each other. */
    predicate Valid() {
      var r := center.x - mins.x;
      && r >= 0.0
      && radiusSquared == r * r
      && mins == Sub(center, Splat(r))
      && maxs == Add(center, Splat(r))
    }
  }

  /** `radius_squared - (|diff|^2 - v^2)` with `v` the projection of the
      center offset `diff` on the direction: the squared half-chord when the
      direction has unit length. Both sphere snapshots compute it alike. */
  function HalfChordSquared(radiusSquared: real, diff: Vec3, direction: Vec3): real {
    var v := Dot(diff, direction);
    radiusSquared - (Dot(diff, diff) - v * v)
  }

  /** `Sphere::new` caches `radius^2` and the corners `center -/+ radius`. */
  function New(center: Vec3, radius: real): (s: Sphere)
    ensures s.center == center && s.radiusSquared == radius * radius
    ensures s.Mins() == Sub(center, Splat(radius)) && s.Maxs() == Add(center, Splat(radius))
  {
    var radiusVec := Splat(radius);
    Sphere(center, radius * radius, Sub(center, radiusVec), Add(center, radiusVec))
  }

  /** With a non-negative radius the corners bracket the center and the
      caches are consistent. */
  lemma NewBracketsCenter(center: Vec3, radius: real)
    requires radius >= 0.0
    ensures LessEq(New(center, radius).Mins(), center) && LessEq(center, New(center, radius).Maxs())
    ensures New(center, radius).Valid()
  {
  }

  /** At a surface point of a valid sphere of positive radius, the normal
      scaled by the radius is the offset from the center: `normal` is the
      outward unit normal there. */
  lemma NormalAtSurface(m: Maths, s: Sphere, p: Vec3)
    requires SqrtSound(m) && NormalizeSound(m)
    requires s.Valid() && s.radiusSquared > 0.0 && DistanceSquared(p, s.center) == s.radiusSquared
    ensures Scale(s.Normal(m, p), s.center.x - s.mins.x) == Sub(p, s.center)
  {
    var r := s.center.x - s.mins.x;
    NormalScaledBack(m, Sub(p, s.center), r);
  }

  /** Probing one sphere, as passed to `filter_map` and `any`. */
  function Probe(m: Maths, ray: Ray): Sphere -> Option<Intersection<Sphere>> {
    (s: Sphere) => s.Intersects(m, ray)
  }

  /** For a unit direction, the squared distance from the point at `t` to
      the center is the squared offset of `t` from the projection plus what
      the discriminant leaves of the squared radius. */
  lemma AlongRay(s: Sphere, ray: Ray, t: real)
    ensures Dot(ray.direction, ray.direction) == 1.0 ==>
      DistanceSquared(PointAt(ray, t), s.center)
        == (t - s.Projection(ray)) * (t - s.Projection(ray)) + (s.radiusSquared - s.Discriminant(ray))
  {
    if Dot(ray.direction, ray.direction) == 1.0 {
      var e := Sub(s.center, ray.position);
      DistanceAlongRay(ray, t, s.center);
      ShiftedSquare(t, s.Projection(ray), Dot(ray.direction, ray.direction), Dot(e, e), DistanceSquared(PointAt(ray, t), s.center));
    }
  }


  /** A hit is reported only with the center ahead and a non-negative
      discriminant, at the near root. */
  lemma HitIsNearRootOf(m: Maths, s: Sphere, ray: Ray)
    requires s.Intersects(m, ray).Some?
    ensures s.Projection(ray) >= 0.0 && s.Discriminant(ray) >= 0.0
    ensures s.Intersects(m, ray).value.distance == s.Projection(ray) - m.sqrt(s.Discriminant(ray))
  {
  }

  /** For a unit direction, a reported hit point lies on the sphere. */
  lemma HitLiesOnSphere(m: Maths, s: Sphere, ray: Ray)
    requires SqrtSound(m) && Dot(ray.direction, ray.direction) == 1.0
    requires s.Intersects(m, ray).Some?
    ensures DistanceSquared(PointAt(ray, s.Intersects(m, ray).value.distance), s.center) == s.radiusSquared
  {
    HitIsNearRootOf(m, s, ray);
    NearRootOnSphere(m, s, ray, s.Intersects(m, ray).value.distance);
  }

  /** For a unit direction and a non-negative discriminant, the point at the
      near root lies on the sphere. */
  lemma NearRootOnSphere(m: Maths, s: Sphere, ray: Ray, t: real)
    requires SqrtSound(m) && Dot(ray.direction, ray.direction) == 1.0 && s.Discriminant(ray) >= 0.0
    requires t == s.Projection(ray) - m.sqrt(s.Discriminant(ray))
    ensures DistanceSquared(PointAt(ray, t), s.center) == s.radiusSquared
  {
    AlongRay(s, ray, t);
    AtNearRoot(m, t, s.Projection(ray), DistanceSquared(PointAt(ray, t), s.center), s.radiusSquared, s.Discriminant(ray));
  }

  /** For a sphere built with a non-negative radius and a unit direction, a
      reported hit point lies within the cached corners. */
  lemma HitWithinCorners(m: Maths, s: Sphere, ray: Ray)
    requires SqrtSound(m) && Dot(ray.direction, ray.direction) == 1.0
    requires s.Valid() && s.Intersects(m, ray).Some?
    ensures var q := PointAt(ray, s.Intersects(m, ray).value.distance);
      LessEq(s.Mins(), q) && LessEq(q, s.Maxs())
  {
    HitLiesOnSphere(m, s, ray);
    SurfaceWithinCorners(s, PointAt(ray, s.Intersects(m, ray).value.distance));
  }

  /** Every point of the surface of a valid sphere lies within its corners. */
  lemma SurfaceWithinCorners(s: Sphere, q: Vec3)
    requires s.Valid() && DistanceSquared(q, s.center) == s.radiusSquared
    ensures LessEq(s.Mins(), q) && LessEq(q, s.Maxs())
  {
    var r := s.center.x - s.mins.x;
    var e := Sub(q, s.center);
    SquareNonNegative(e.x);
    SquareNonNegative(e.y);
    SquareNonNegative(e.z);
    AxisWithinRadius(e.x, e.y * e.y + e.z * e.z, r);
    AxisWithinRadius(e.y, e.x * e.x + e.z * e.z, r);
    AxisWithinRadius(e.z, e.x * e.x + e.y * e.y, r);
  }

  /** One coordinate of a vector of length `r` lies in `[-r, r]`. */
  lemma AxisWithinRadius(a: real, rest: real, r: real)
    requires r >= 0.0 && rest >= 0.0 && a * a + rest == r * r
    ensures -r <= a <= r
  {
    SquareBelowSquare(a, r);
    assert (-a) * (-a) == a * a;
    SquareBelowSquare(-a, r);
  }

  /** The reported distance is the nearer root: no point of the line at a
      smaller parameter lies on the sphere. */
  lemma HitIsNearRoot(m: Maths, s: Sphere, ray: Ray, t: real)
    requires SqrtSound(m) && Dot(ray.direction, ray.direction) == 1.0
    requires s.Intersects(m, ray).Some?
    requires DistanceSquared(PointAt(ray, t), s.center) <= s.radiusSquared
    ensures s.Intersects(m, ray).value.distance <= t
  {
    HitIsNearRootOf(m, s, ray);
    InsideBallNotBeforeNearRoot(m, s, ray, t);
  }

  /** For a unit direction and a non-negative discriminant, a point of the
      line within the closed ball is not before the near root. */
  lemma InsideBallNotBeforeNearRoot(m: Maths, s: Sphere, ray: Ray, t: real)
    requires SqrtSound(m) && Dot(ray.direction, ray.direction) == 1.0 && s.Discriminant(ray) >= 0.0
    requires DistanceSquared(PointAt(ray, t), s.center) <= s.radiusSquared
    ensures s.Projection(ray) - m.sqrt(s.Discriminant(ray)) <= t
  {
    AlongRay(s, ray, t);
    NotBeforeNearRoot(m, t, s.Projection(ray), DistanceSquared(PointAt(ray, t), s.center), s.radiusSquared, s.Discriminant(ray));
  }

  /** A miss with the center ahead means the whole line stays outside the
      closed ball (for a unit direction). */
  lemma MissAvoidsBall(m: Maths, s: Sphere, ray: Ray, t: real)
    requires Dot(ray.direction, ray.direction) == 1.0
    requires s.Projection(ray) >= 0.0 && s.Intersects(m, ray).None?
    ensures DistanceSquared(PointAt(ray, t), s.center) > s.radiusSquared
  {
    assert s.Discriminant(ray) < 0.0;
    OutsideBall(s, ray, t);
  }

  /** With a negative discriminant and a unit direction, every point of the
      line lies strictly outside the ball. */
  lemma OutsideBall(s: Sphere, ray: Ray, t: real)
    requires Dot(ray.direction, ray.direction) == 1.0 && s.Discriminant(ray) < 0.0
    ensures DistanceSquared(PointAt(ray, t), s.center) > s.radiusSquared
  {
    AlongRay(s, ray, t);
    AboveWhenNegative(t, s.Projection(ray), DistanceSquared(PointAt(ray, t), s.center), s.radiusSquared, s.Discriminant(ray));
  }

  /** A ray starting strictly inside the sphere, pointing anywhere but away
      from the center, is reported with a negative distance. */
  lemma InsideOriginGivesNegativeDistance(m: Maths, s: Sphere, ray: Ray)
    requires SqrtSound(m)
    requires DistanceSquared(ray.position, s.center) < s.radiusSquared
    requires s.Projection(ray) >= 0.0
    ensures s.Intersects(m, ray).Some? && s.Intersects(m, ray).value.distance < 0.0
  {
    var v := s.Projection(ray);
    var e := Sub(s.center, ray.position);
    assert DistanceSquared(ray.position, s.center) == Dot(e, e);
    assert s.Discriminant(ray) == s.radiusSquared - (Dot(e, e) - v * v);
    var root := m.sqrt(s.Discriminant(ray));
    assert root >= 0.0 && root * root == s.Discriminant(ray);
    SquareOrdersNonNegative(v, root);
  }

  /** The sphere at (1,1,3) of radius 1 and the ray from the origin along +Z:
      `v = 3` but the discriminant is -1, so this is a miss. */
  lemma OffsetSphereMissed(m: Maths)
    ensures New(Vec3(1.0, 1.0, 3.0), 1.0).Intersects(m, Ray(Zero, Vec3(0.0, 0.0, 1.0))).None?
  {
    var s := New(Vec3(1.0, 1.0, 3.0), 1.0);
    var ray := Ray(Zero, Vec3(0.0, 0.0, 1.0));
    assert s.Projection(ray) == 3.0;
    assert s.Discriminant(ray) == -1.0;
  }
}
