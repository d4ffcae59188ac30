/**
 * The default slab test of the `Bounds` trait (src/bounds.rs). The six
 * per-axis ray parameters `(mins - position) / direction` and
 * `(maxs - position) / direction` are extended reals, because the renderer
 * relies on division by a zero direction component producing an infinity.
 */
module Bounds {
  import opened Vectors
  import opened Numerics

  /** A vector of extended reals, one per axis. */
  datatype ExtVec = ExtVec(x: ExtReal, y: ExtReal, z: ExtReal)

  /** The slab test as written, on the parameters of the near (`mins`) and
      far (`maxs`) planes of each axis. It accepts exactly when every
      near-plane parameter is at most every far-plane parameter, after each
      axis has been put in order. */
  function SlabTest(lo: ExtVec, hi: ExtVec): bool
  {
    // swap each axis so that the near parameter comes first
    var (minx, maxx) := if Lt(hi.x, lo.x) then (hi.x, lo.x) else (lo.x, hi.x);
    var (miny, maxy) := if Lt(hi.y, lo.y) then (hi.y, lo.y) else (lo.y, hi.y);
    if Lt(maxy, minx) || Lt(maxx, miny) then
      false
    else
      // narrow the x interval to its overlap with the y interval
      var minx' := if Lt(minx, miny) then miny else minx;
      var maxx' := if Lt(maxy, maxx) then maxy else maxx;
      var (minz, maxz) := if Lt(hi.z, lo.z) then (hi.z, lo.z) else (lo.z, hi.z);
      !(Lt(maxz, minx') || Lt(maxx', minz))
  }

  /** The slab test accepts exactly when every near parameter is at most
      every far parameter, after each axis has been put in order. */
  lemma SlabTestMeansPairwiseOrdered(lo: ExtVec, hi: ExtVec)
    ensures SlabTest(lo, hi) <==> PairwiseOrdered(
      Lower(lo.x, hi.x), Lower(lo.y, hi.y), Lower(lo.z, hi.z),
      Upper(lo.x, hi.x), Upper(lo.y, hi.y), Upper(lo.z, hi.z))
  {
    var nx, ny, nz := Lower(lo.x, hi.x), Lower(lo.y, hi.y), Lower(lo.z, hi.z);
    var fx, fy, fz := Upper(lo.x, hi.x), Upper(lo.y, hi.y), Upper(lo.z, hi.z);
    assert SlabTest(lo, hi) == (!(Lt(fy, nx) || Lt(fx, ny)) && !(Lt(fz, Upper(nx, ny)) || Lt(Lower(fx, fy), nz)));
    LowerBelowUpper(lo.x, hi.x);
    LowerBelowUpper(lo.y, hi.y);
    LowerBelowUpper(lo.z, hi.z);
    BelowUpper(fz, nx, ny);
    LowerBelow(fx, fy, nz);
  }

  lemma LowerBelowUpper(a: ExtReal, b: ExtReal)
    ensures Le(Lower(a, b), Upper(a, b))
  {
  }

  /** `c` is below the larger of `a` and `b` exactly when it is below one of
      them. */
  lemma BelowUpper(c: ExtReal, a: ExtReal, b: ExtReal)
    ensures Lt(c, Upper(a, b)) <==> Lt(c, a) || Lt(c, b)
  {
  }

  /** The smaller of `a` and `b` is below `c` exactly when one of them is. */
  lemma LowerBelow(a: ExtReal, b: ExtReal, c: ExtReal)
    ensures Lt(Lower(a, b), c) <==> Lt(a, c) || Lt(b, c)
  {
  }

  /** Every near parameter is at most every far parameter. */
  predicate PairwiseOrdered(nx: ExtReal, ny: ExtReal, nz: ExtReal, fx: ExtReal, fy: ExtReal, fz: ExtReal) {
    && Le(nx, fx) && Le(nx, fy) && Le(nx, fz)
    && Le(ny, fx) && Le(ny, fy) && Le(ny, fz)
    && Le(nz, fx) && Le(nz, fy) && Le(nz, fz)
  }

  /** `t` lies in the closed interval spanned by `a` and `b`. */
  predicate Between(a: ExtReal, b: ExtReal, t: ExtReal) {
    Le(Lower(a, b), t) && Le(t, Upper(a, b))
  }

  /** The reference meaning of the slab test: the three closed per-axis
      parameter intervals share a parameter. Nothing requires that parameter
      to be non-negative, so boxes behind the ray origin are accepted. */
  ghost predicate SharedParameter(lo: ExtVec, hi: ExtVec) {
    exists t: ExtReal :: Between(lo.x, hi.x, t) && Between(lo.y, hi.y, t) && Between(lo.z, hi.z, t)
  }

  lemma SlabTestMeansSharedParameter(lo: ExtVec, hi: ExtVec)
    ensures SlabTest(lo, hi) <==> SharedParameter(lo, hi)
  {
    var nx, ny, nz := Lower(lo.x, hi.x), Lower(lo.y, hi.y), Lower(lo.z, hi.z);
    SlabTestMeansPairwiseOrdered(lo, hi);
    if SlabTest(lo, hi) {
      var t := Upper(Upper(nx, ny), nz);
      assert Between(lo.x, hi.x, t) && Between(lo.y, hi.y, t) && Between(lo.z, hi.z, t);
    }
    if SharedParameter(lo, hi) {
      var t :| Between(lo.x, hi.x, t) && Between(lo.y, hi.y, t) && Between(lo.z, hi.z, t);
      LeTransitive(nx, t, Upper(lo.x, hi.x));
      LeTransitive(nx, t, Upper(lo.y, hi.y));
      LeTransitive(nx, t, Upper(lo.z, hi.z));
      LeTransitive(ny, t, Upper(lo.x, hi.x));
      LeTransitive(ny, t, Upper(lo.y, hi.y));
      LeTransitive(ny, t, Upper(lo.z, hi.z));
      LeTransitive(nz, t, Upper(lo.x, hi.x));
      LeTransitive(nz, t, Upper(lo.y, hi.y));
      LeTransitive(nz, t, Upper(lo.z, hi.z));
    }
  }

  lemma LeTransitive(a: ExtReal, b: ExtReal, c: ExtReal)
    requires Le(a, b) && Le(b, c)
    ensures Le(a, c)
  {
  }

  /** The per-axis parameters `num / den` under the renderer's division. */
  function Quotients(m: Maths, num: Vec3, den: Vec3): ExtVec {
    ExtVec(m.div(num.x, den.x), m.div(num.y, den.y), m.div(num.z, den.z))
  }

  /** `Bounds::intersects_bounds` for a box with corners `mins` and `maxs`. */
  function IntersectsBounds(m: Maths, mins: Vec3, maxs: Vec3, ray: Ray): (r: bool)
    ensures r <==> SharedParameter(
      Quotients(m, Sub(mins, ray.position), ray.direction),
      Quotients(m, Sub(maxs, ray.position), ray.direction))
  {
    var lo := Quotients(m, Sub(mins, ray.position), ray.direction);
    var hi := Quotients(m, Sub(maxs, ray.position), ray.direction);
    SlabTestMeansSharedParameter(lo, hi);
    SlabTest(lo, hi)
  }

  /** A direction with no zero component: every parameter is finite. */
  predicate Oblique(d: Vec3) {
    d.x != 0.0 && d.y != 0.0 && d.z != 0.0
  }

  /** On one axis: if the point at parameter `t` lies between the planes `a`
      and `b`, then `t` lies between their parameters. */
  lemma AxisContainsParameter(a: real, b: real, p: real, d: real, t: real)
    requires d != 0.0 && a <= p + t * d <= b
    ensures Between(Fin((a - p) / d), Fin((b - p) / d), Fin(t))
  {
    if d > 0.0 {
      assert (a - p) / d <= t by {
        assert a - p <= t * d;
      }
      assert t <= (b - p) / d by {
        assert t * d <= b - p;
      }
    } else {
      assert t <= (a - p) / d by {
        assert a - p <= t * d;
        assert (a - p) / d * d == a - p;
      }
      assert (b - p) / d <= t by {
        assert t * d <= b - p;
        assert (b - p) / d * d == b - p;
      }
    }
  }

  /** The slab test is a superset filter: whenever some point of the ray's
      line lies in the box, the test accepts (for directions with no zero
      component, where the division is exact). */
  lemma PointInBoxPassesSlabTest(m: Maths, mins: Vec3, maxs: Vec3, ray: Ray, t: real)
    requires DivSound(m) && Oblique(ray.direction)
    requires LessEq(mins, PointAt(ray, t)) && LessEq(PointAt(ray, t), maxs)
    ensures IntersectsBounds(m, mins, maxs, ray)
  {
    var p, d := ray.position, ray.direction;
    AxisContainsParameter(mins.x, maxs.x, p.x, d.x, t);
    AxisContainsParameter(mins.y, maxs.y, p.y, d.y, t);
    AxisContainsParameter(mins.z, maxs.z, p.z, d.z, t);
    var lo := Quotients(m, Sub(mins, p), d);
    var hi := Quotients(m, Sub(maxs, p), d);
    assert Between(lo.x, hi.x, Fin(t)) && Between(lo.y, hi.y, Fin(t)) && Between(lo.z, hi.z, Fin(t));
  }

  /** The box from (-1,-1,1) to (1,1,3) with a ray from the origin along +Z:
      the x and y parameters are infinite, z gives [1, 3]; accepted. */
  lemma BoxAheadAccepted()
    ensures SlabTest(ExtVec(NegInf, NegInf, Fin(1.0)), ExtVec(PosInf, PosInf, Fin(3.0)))
  {
  }

  /** The same box with the ray along -Z (direction components -0.0, -0.0,
      -1.0): the x and y parameters are infinities of the opposite signs and z
      gives [-3, -1], entirely behind the origin; the test still accepts. */
  lemma BoxBehindAccepted()
    ensures SlabTest(ExtVec(PosInf, PosInf, Fin(-1.0)), ExtVec(NegInf, NegInf, Fin(-3.0)))
  {
  }
}
