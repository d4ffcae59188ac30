/**
 * The reference meaning of both tracers: a chain of rays, each obtained from
 * the previous one's hit (a new ray from the hit point along the surface
 * normal), and the sum of the direct-lighting terms met along it. A `step`
 * answers, for one ray, either a miss or the direct term at the nearest hit
 * together with the next ray.
 */
module Chains {
  import opened Vectors
  import opened Intersections

  datatype Shade = Shade(direct: Vec3, next: Ray)

  /** The `k`-th ray of the chain from `ray`, or `None` once a ray missed. */
  function RayAt(step: Ray -> Option<Shade>, ray: Ray, k: nat): Option<Ray> {
    if k == 0 then Some(ray)
    else
      match RayAt(step, ray, k - 1)
      case None => None
      case Some(r) =>
        match step(r)
        case None => None
        case Some(s) => Some(s.next)
  }

  /** The direct term of the `k`-th ray; zero once the chain has ended. */
  function Term(step: Ray -> Option<Shade>, ray: Ray, k: nat): Vec3 {
    match RayAt(step, ray, k)
    case None => Zero
    case Some(r) =>
      match step(r)
      case None => Zero
      case Some(s) => s.direct
  }

  /** The in-order sum of the first `n` terms. */
  function Total(step: Ray -> Option<Shade>, ray: Ray, n: nat): Vec3 {
    if n == 0 then Zero else Add(Total(step, ray, n - 1), Term(step, ray, n - 1))
  }

  /** The number of terms a trace started at `depth` adds up: the tracer
      recurses while `depth < 3`. */
  function Budget(depth: int): (n: nat)
    ensures n >= 1
    ensures depth >= 3 ==> n == 1
    ensures depth >= 0 ==> n <= 4
  {
    (if depth < 3 then 3 - depth else 0) + 1
  }

  /** Shifting the chain: the rays after the first are the chain of the next
      ray. */
  lemma {:induction false} RayAtShift(step: Ray -> Option<Shade>, ray: Ray, k: nat)
    requires step(ray).Some?
    ensures RayAt(step, ray, k + 1) == RayAt(step, step(ray).value.next, k)
  {
    if k > 0 {
      RayAtShift(step, ray, k - 1);
    }
  }

  lemma TermShift(step: Ray -> Option<Shade>, ray: Ray, k: nat)
    requires step(ray).Some?
    ensures Term(step, ray, k + 1) == Term(step, step(ray).value.next, k)
  {
    RayAtShift(step, ray, k);
  }

  /** Once a ray misses, no later term contributes. */
  lemma {:induction false} MissEndsChain(step: Ray -> Option<Shade>, ray: Ray, k: nat, j: nat)
    requires RayAt(step, ray, k).None? || step(RayAt(step, ray, k).value).None?
    requires k < j
    ensures RayAt(step, ray, j).None? && Term(step, ray, j) == Zero
  {
    if j > k + 1 {
      MissEndsChain(step, ray, k, j - 1);
    }
  }

  /** A chain whose first ray misses sums to zero. */
  lemma {:induction false} MissTotalsZero(step: Ray -> Option<Shade>, ray: Ray, n: nat)
    requires step(ray).None?
    ensures Total(step, ray, n) == Zero
  {
    if n > 0 {
      MissTotalsZero(step, ray, n - 1);
      if n - 1 > 0 {
        MissEndsChain(step, ray, 0, n - 1);
      }
    }
  }

  /** The sum over a chain whose first ray hits is its direct term followed
      by the sum over the chain of the next ray. */
  lemma {:induction false} TotalUnfold(step: Ray -> Option<Shade>, ray: Ray, n: nat)
    requires step(ray).Some?
    ensures Total(step, ray, n + 1) == Add(step(ray).value.direct, Total(step, step(ray).value.next, n))
  {
    var s := step(ray).value;
    if n > 0 {
      TotalUnfold(step, ray, n - 1);
      TermShift(step, ray, n - 1);
      AddAssociative(s.direct, Total(step, s.next, n - 1), Term(step, s.next, n - 1));
    }
  }

  /** Below depth 3, a hit adds its direct term to the sum of the chain
      from the next ray with one term fewer. */
  lemma TotalAtHit(step: Ray -> Option<Shade>, ray: Ray, depth: int, s: Shade, here: Vec3, further: Vec3)
    requires step(ray) == Some(s) && depth < 3
    requires here == Add(s.direct, further)
    requires further == Total(step, s.next, Budget(depth + 1))
    ensures here == Total(step, ray, Budget(depth))
  {
    TotalUnfold(step, ray, Budget(depth + 1));
  }

  /** From depth 3 on, a hit contributes its direct term alone. */
  lemma TotalAtLastHit(step: Ray -> Option<Shade>, ray: Ray, depth: int, s: Shade)
    requires step(ray) == Some(s) && depth >= 3
    ensures Total(step, ray, Budget(depth)) == s.direct
  {
    TotalUnfold(step, ray, 0);
    AddZero(s.direct);
  }

  lemma AddAssociative(a: Vec3, b: Vec3, c: Vec3)
    ensures Add(Add(a, b), c) == Add(a, Add(b, c))
  {
  }
}
