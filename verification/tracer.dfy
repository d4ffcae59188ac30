/**
 * The tracing algorithm both snapshots share (src/rt/mod.rs and
 * src/main.rs differ only in what a scene is made of and in how the base
 * colour reaches the lighting): nearest and any queries over the scene's
 * items, shadowed direct lighting summed over the lights, and the recursive
 * trace that follows the surface normal up to depth 3.
 */
module Tracing {
  import opened Vectors
  import opened Numerics
  import opened Intersections
  import opened Shading
  import Chains
  import Queries

  /** A scene as the tracer sees it: the items to test, how one item is
      tested against a ray, the surface normal of a hit shape at a point,
      and the base colour of every surface. */
  datatype Scene<!A, !S> = Scene(
    items: seq<A>,
    probe: Ray -> A -> Option<Intersection<S>>,
    normal: (S, Vec3) -> Vec3,
    base: Vec3)

  /** `any_intersection`: some item reports a hit. */
  function AnyIntersection<A, S>(sc: Scene<A, S>, ray: Ray): (r: bool)
    ensures r <==> exists i :: 0 <= i < |sc.items| && sc.probe(ray)(sc.items[i]).Some?
    ensures r <==> NearestIntersection(sc, ray).Some?
  {
    Queries.AnyAgreesWithNearest(sc.probe(ray), sc.items);
    Queries.AnyHit(sc.probe(ray), sc.items)
  }

  /** `nearest_intersection`: `filter_map(intersects).min()`, the later hit
      on ties. */
  function NearestIntersection<A, S>(sc: Scene<A, S>, ray: Ray): (r: Option<Intersection<S>>)
    ensures Queries.IsNearestHit(sc.probe(ray), sc.items, r)
  {
    Queries.Nearest(sc.probe(ray), sc.items)
  }

  /** The shadow probe from `position` towards the light hits some item. */
  predicate Shadowed<A, S>(m: Maths, sc: Scene<A, S>, position: Vec3, light: Light) {
    AnyIntersection(sc, ShadowRay(m, position, light))
  }

  /** `apply_light`: nothing when the shadow probe towards the light hits,
      otherwise diffuse plus specular. */
  function ApplyLight<A, S>(m: Maths, sc: Scene<A, S>, position: Vec3, normal: Vec3, light: Light, rayDirection: Vec3): (r: Vec3)
    ensures Shadowed(m, sc, position, light) ==> r == Zero
    ensures !Shadowed(m, sc, position, light) ==> r == Lit(m, position, normal, light, rayDirection, sc.base)
    ensures PowSound(m) && NonNegative(light.color) && NonNegative(sc.base) ==> NonNegative(r)
  {
    if Shadowed(m, sc, position, light) then Zero
    else Lit(m, position, normal, light, rayDirection, sc.base)
  }

  /** `apply_lighting`: the in-order sum of every light's contribution,
      starting from zero. */
  function ApplyLighting<A, S>(m: Maths, sc: Scene<A, S>, position: Vec3, normal: Vec3, lights: seq<Light>, rayDirection: Vec3): (r: Vec3)
    ensures |lights| == 0 ==> r == Zero
    ensures |lights| == 1 ==> r == ApplyLight(m, sc, position, normal, lights[0], rayDirection)
    ensures PowSound(m) && LightsNonNegative(lights) && NonNegative(sc.base) ==> NonNegative(r)
  {
    if |lights| == 0 then Zero
    else
      var n := |lights| - 1;
      var before := ApplyLighting(m, sc, position, normal, lights[..n], rayDirection);
      var last := ApplyLight(m, sc, position, normal, lights[n], rayDirection);
      assert LightsNonNegative(lights) ==> LightsNonNegative(lights[..n]) && NonNegative(lights[n].color);
      SumNonNegative(before, last);
      AddZero(last);
      Add(before, last)
  }

  /** The lighting over two runs of lights is the sum of the lighting over
      each: with the one-light case, this makes `apply_lighting` the sum of
      `apply_light` over the lights. */
  lemma {:induction false} LightingSplits<A, S>(m: Maths, sc: Scene<A, S>, position: Vec3, normal: Vec3,
                                                first: seq<Light>, rest: seq<Light>, rayDirection: Vec3)
    ensures ApplyLighting(m, sc, position, normal, first + rest, rayDirection)
      == Add(ApplyLighting(m, sc, position, normal, first, rayDirection),
             ApplyLighting(m, sc, position, normal, rest, rayDirection))
    decreases |rest|
  {
    var a := ApplyLighting(m, sc, position, normal, first, rayDirection);
    if |rest| == 0 {
      assert first + rest == first;
      AddZero(a);
    } else {
      var n := |rest| - 1;
      var all := first + rest;
      assert all[..|all| - 1] == first + rest[..n];
      assert all[|all| - 1] == rest[n];
      var b := ApplyLighting(m, sc, position, normal, rest[..n], rayDirection);
      var c := ApplyLight(m, sc, position, normal, rest[n], rayDirection);
      LightingSnoc(m, sc, position, normal, all, rayDirection);
      LightingSnoc(m, sc, position, normal, rest, rayDirection);
      LightingSplits(m, sc, position, normal, first, rest[..n], rayDirection);
      Chains.AddAssociative(a, b, c);
    }
  }

  /** One step of the sum: the last light is added to the lighting of the
      others. */
  lemma LightingSnoc<A, S>(m: Maths, sc: Scene<A, S>, position: Vec3, normal: Vec3, lights: seq<Light>, rayDirection: Vec3)
    requires |lights| > 0
    ensures ApplyLighting(m, sc, position, normal, lights, rayDirection)
      == Add(ApplyLighting(m, sc, position, normal, lights[..|lights| - 1], rayDirection),
             ApplyLight(m, sc, position, normal, lights[|lights| - 1], rayDirection))
  {
  }

  /** A light whose shadow probe is blocked can be dropped without changing
      the lighting. */
  lemma ShadowedLightIgnored<A, S>(m: Maths, sc: Scene<A, S>, position: Vec3, normal: Vec3,
                                   before: seq<Light>, light: Light, after: seq<Light>, rayDirection: Vec3)
    requires Shadowed(m, sc, position, light)
    ensures ApplyLighting(m, sc, position, normal, before + [light] + after, rayDirection)
      == ApplyLighting(m, sc, position, normal, before + after, rayDirection)
  {
    LightingSplits(m, sc, position, normal, before + [light], after, rayDirection);
    LightingSplits(m, sc, position, normal, before, [light], rayDirection);
    LightingSplits(m, sc, position, normal, before, after, rayDirection);
    AddZero(ApplyLighting(m, sc, position, normal, before, rayDirection));
  }

  /** A point that every light's shadow probe finds blocked receives no
      light. */
  lemma {:induction false} AllShadowedIsDark<A, S>(m: Maths, sc: Scene<A, S>, position: Vec3, normal: Vec3,
                                                   lights: seq<Light>, rayDirection: Vec3)
    requires forall i :: 0 <= i < |lights| ==> Shadowed(m, sc, position, lights[i])
    ensures ApplyLighting(m, sc, position, normal, lights, rayDirection) == Zero
  {
    if |lights| > 0 {
      var n := |lights| - 1;
      assert forall i :: 0 <= i < n ==> lights[..n][i] == lights[i];
      AllShadowedIsDark(m, sc, position, normal, lights[..n], rayDirection);
      AddZero(Zero);
    }
  }

  /** The direct term at a hit: lighting at the hit point with the shape's
      normal there, seen along the hit's ray. */
  function Direct<A, S>(m: Maths, sc: Scene<A, S>, lights: seq<Light>, i: Intersection<S>): Vec3 {
    var hitPoint := HitPoint(i);
    ApplyLighting(m, sc, hitPoint, sc.normal(i.shape, hitPoint), lights, i.ray.direction)
  }

  /** `trace`: zero on a miss; otherwise the direct term, plus, while
      `depth < 3`, the trace of the ray leaving the hit point along the
      normal. */
  function Trace<A, S>(m: Maths, sc: Scene<A, S>, lights: seq<Light>, ray: Ray, depth: int): (r: Vec3)
    ensures NearestIntersection(sc, ray).None? ==> r == Zero
    ensures PowSound(m) && LightsNonNegative(lights) && NonNegative(sc.base) ==> NonNegative(r)
    decreases if depth < 3 then 3 - depth else 0
  {
    match NearestIntersection(sc, ray)
    case None => Zero
    case Some(i) =>
      var hitPoint := HitPoint(i);
      var color := Direct(m, sc, lights, i);
      if depth < 3 then
        var further := Trace(m, sc, lights, Ray(hitPoint, sc.normal(i.shape, hitPoint)), depth + 1);
        SumNonNegative(color, further);
        Add(color, further)
      else
        color
  }

  /** One link of the chain the tracer follows. */
  function Step<A, S>(m: Maths, sc: Scene<A, S>, lights: seq<Light>): Ray -> Option<Chains.Shade> {
    (ray: Ray) =>
      match NearestIntersection(sc, ray)
      case None => None
      case Some(i) =>
        var hitPoint := HitPoint(i);
        Some(Chains.Shade(Direct(m, sc, lights, i), Ray(hitPoint, sc.normal(i.shape, hitPoint))))
  }

  /** The trace from `depth` is the sum of the direct terms along the chain
      of normal rays: it stops at the first miss and adds at most
      `max(0, 3 - depth) + 1` terms. */
  lemma {:induction false} TraceIsChainSum<A, S>(m: Maths, sc: Scene<A, S>, lights: seq<Light>, ray: Ray, depth: int)
    ensures Trace(m, sc, lights, ray, depth) == Chains.Total(Step(m, sc, lights), ray, Chains.Budget(depth))
    decreases if depth < 3 then 3 - depth else 0
  {
    var step := Step(m, sc, lights);
    if NearestIntersection(sc, ray).None? {
      Chains.MissTotalsZero(step, ray, Chains.Budget(depth));
    } else {
      var s := StepAtHit(m, sc, lights, ray);
      if depth < 3 {
        TraceIsChainSum(m, sc, lights, s.next, depth + 1);
        Chains.TotalAtHit(step, ray, depth, s, Trace(m, sc, lights, ray, depth), Trace(m, sc, lights, s.next, depth + 1));
      } else {
        Chains.TotalAtLastHit(step, ray, depth, s);
      }
    }
  }

  /** At a hit, the chain's link and the trace agree on the direct term and
      on the next ray. */
  lemma StepAtHit<A, S>(m: Maths, sc: Scene<A, S>, lights: seq<Light>, ray: Ray) returns (s: Chains.Shade)
    requires NearestIntersection(sc, ray).Some?
    ensures Step(m, sc, lights)(ray) == Some(s)
    ensures forall depth: int ::
      Trace(m, sc, lights, ray, depth)
        == (if depth < 3 then Add(s.direct, Trace(m, sc, lights, s.next, depth + 1)) else s.direct)
  {
    var i := NearestIntersection(sc, ray).value;
    var hitPoint := HitPoint(i);
    s := Chains.Shade(Direct(m, sc, lights, i), Ray(hitPoint, sc.normal(i.shape, hitPoint)));
  }
}
