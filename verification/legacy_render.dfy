/**
 * The older tracer (src/main.rs): the shared tracing algorithm over a flat
 * list of spheres with a grey base colour passed into the lighting,
 * rectangular regions, and four hard-coded work regions.
 */
module LegacyRender {
  import opened Vectors
  import opened Numerics
  import opened Intersections
  import opened LegacySpheres
  import opened Shading
  import opened Regions
  import opened Colors
  import Queries
  import Spheres
  import Tracing

  /** The base colour `trace` passes to the lighting. */
  const GRAY: Vec3 := Vec3(0.5, 0.5, 0.5)

  /** `dirty_intersects`: the two guards of `intersects` without computing
      the distance (`v.powi(2)` is taken as `v * v`). It is the same
      decision as `intersects` for every ray, sphere and square root. */
  function DirtyIntersects(ray: Ray, s: LegacySphere): (r: bool)
    ensures forall m: Maths :: r == s.Intersects(m, ray).Some?
  {
    var diff := Sub(s.center, ray.position);
    var v := Dot(diff, ray.direction);
    if v < 0.0 then false
    else
      var distanceSquared := Spheres.HalfChordSquared(s.radiusSquared, diff, ray.direction);
      distanceSquared >= 0.0
  }

  /** The scene the tracer sees: the spheres, their normals, and the grey
      base colour `trace` passes into the lighting. */
  function SceneOf(m: Maths, objects: seq<LegacySphere>): Tracing.Scene<LegacySphere, LegacySphere> {
    Tracing.Scene(objects, (ray: Ray) => LegacySpheres.Probe(m, ray), (s: LegacySphere, p: Vec3) => s.Normal(m, p), GRAY)
  }

  /** `any_intersection`: some sphere reports a hit. */
  function AnyIntersection(m: Maths, ray: Ray, objects: seq<LegacySphere>): (r: bool)
    ensures r <==> exists i :: 0 <= i < |objects| && objects[i].Intersects(m, ray).Some?
    ensures r <==> NearestIntersection(m, ray, objects).Some?
  {
    Tracing.AnyIntersection(SceneOf(m, objects), ray)
  }

  /** `nearest_intersection`: the minimum over the spheres' hits, the later
      one on ties. */
  function NearestIntersection(m: Maths, ray: Ray, objects: seq<LegacySphere>): (r: Option<Intersection<LegacySphere>>)
    ensures Queries.IsNearestHit(LegacySpheres.Probe(m, ray), objects, r)
  {
    Tracing.NearestIntersection(SceneOf(m, objects), ray)
  }

  /** The shadow decision, made with the full `intersects`, is the one
      `dirty_intersects` would make. */
  lemma ShadowsAgreeWithDirtyTest(m: Maths, position: Vec3, objects: seq<LegacySphere>, light: Light)
    ensures Tracing.Shadowed(m, SceneOf(m, objects), position, light)
      <==> exists i :: 0 <= i < |objects| && DirtyIntersects(ShadowRay(m, position, light), objects[i])
  {
  }

  /** `trace` over the spheres with the grey base colour: zero when no
      sphere is hit; never negative for non-negative lights. */
  function Trace(m: Maths, ray: Ray, objects: seq<LegacySphere>, lights: seq<Light>, depth: int): (r: Vec3)
    ensures NearestIntersection(m, ray, objects).None? ==> r == Zero
    ensures PowSound(m) && LightsNonNegative(lights) ==> NonNegative(r)
  {
    Tracing.Trace(m, SceneOf(m, objects), lights, ray, depth)
  }

  /** The colour traced for pixel `(x, y)` from the camera's ray. */
  function PixelShade(m: Maths, camera: (nat, nat) -> Ray, objects: seq<LegacySphere>, lights: seq<Light>): (nat, nat) -> Vec3 {
    (x: nat, y: nat) => Trace(m, camera(x, y), objects, lights, 0)
  }

  /** A work region `(min_x, min_y, max_x, max_y)`. */
  type Region = (nat, nat, nat, nat)

  predicate Proper(r: Region) {
    r.0 <= r.2 && r.1 <= r.3
  }

  /** `trace_region`: every pixel of the rectangle, row-major, with its
      traced colour. The region must not be inverted: the capacity
      computation subtracts unsigned coordinates. */
  method TraceRegion(minX: nat, minY: nat, maxX: nat, maxY: nat, camera: (nat, nat) -> Ray, m: Maths,
                     objects: seq<LegacySphere>, lights: seq<Light>)
    returns (result: seq<(nat, nat, Vec3)>)
    requires minX <= maxX && minY <= maxY
    ensures ShadesOf(result, Pixels(minX, maxX, minY, maxY), PixelShade(m, camera, objects, lights))
    ensures |result| == (maxX - minX) * (maxY - minY)
  {
    result := Collect(minX, maxX, minY, maxY, PixelShade(m, camera, objects, lights));
  }

  /** The pixels of the regions, region after region. */
  function RegionPixels(work: seq<Region>): seq<Pixel>
    requires forall k :: 0 <= k < |work| ==> Proper(work[k])
  {
    if |work| == 0 then []
    else
      var last := work[|work| - 1];
      assert Proper(last);
      RegionPixels(work[..|work| - 1]) + Pixels(last.0, last.2, last.1, last.3)
  }

  /** The sequential counterpart of mapping `trace_region` over the regions
      and collecting the results in order. */
  method RenderRegions(work: seq<Region>, camera: (nat, nat) -> Ray, m: Maths, objects: seq<LegacySphere>, lights: seq<Light>)
    returns (result: seq<(nat, nat, Vec3)>)
    requires forall k :: 0 <= k < |work| ==> Proper(work[k])
    ensures ShadesOf(result, RegionPixels(work), PixelShade(m, camera, objects, lights))
  {
    result := [];
    for k := 0 to |work|
      invariant ShadesOf(result, RegionPixels(work[..k]), PixelShade(m, camera, objects, lights))
    {
      var r := work[k];
      var region := TraceRegion(r.0, r.1, r.2, r.3, camera, m, objects, lights);
      RegionPixelsSnoc(work, k);
      ShadesOfConcat(result, RegionPixels(work[..k]), region, Pixels(r.0, r.2, r.1, r.3), PixelShade(m, camera, objects, lights));
      result := result + region;
    }
    assert work[..|work|] == work;
  }

  lemma RegionPixelsSnoc(work: seq<Region>, k: nat)
    requires forall k :: 0 <= k < |work| ==> Proper(work[k])
    requires k < |work|
    ensures RegionPixels(work[..k + 1]) == RegionPixels(work[..k]) + Pixels(work[k].0, work[k].2, work[k].1, work[k].3)
  {
    assert work[..k + 1][..k] == work[..k];
  }

  /** The four hard-coded work regions of the 800 x 600 window. */
  const WORK: seq<Region> := [(0, 0, 800, 150), (0, 150, 800, 300), (0, 300, 800, 450), (0, 450, 800, 600)]

  /** Four full-width bands stacked from row `a` to row `e` list the pixels
      of the rectangle they stack up to. */
  lemma StackedBands(w: nat, a: nat, b: nat, c: nat, d: nat, e: nat)
    requires a <= b <= c <= d <= e
    ensures RegionPixels([(0, a, w, b), (0, b, w, c), (0, c, w, d), (0, d, w, e)]) == Pixels(0, w, a, e)
  {
    var work: seq<Region> := [(0, a, w, b), (0, b, w, c), (0, c, w, d), (0, d, w, e)];
    assert |work[..1][..0]| == 0;
    assert RegionPixels(work[..1]) == Pixels(0, w, a, b);
    assert work[..2][..1] == work[..1];
    PixelsSplit(0, w, a, b, c);
    assert RegionPixels(work[..2]) == Pixels(0, w, a, c);
    assert work[..3][..2] == work[..2];
    PixelsSplit(0, w, a, c, d);
    assert RegionPixels(work[..3]) == Pixels(0, w, a, d);
    assert work[..4][..3] == work[..3];
    PixelsSplit(0, w, a, d, e);
    assert work[..4] == work;
  }

  /** The hard-coded regions are full-width row bands that together list
      every pixel of the 800 x 600 raster exactly once, in row-major
      order. */
  lemma WorkCoversRaster()
    ensures RegionPixels(WORK) == Pixels(0, 800, 0, 600)
    ensures forall p: Pixel :: p in RegionPixels(WORK) <==> p.0 < 800 && p.1 < 600
    ensures var ps := RegionPixels(WORK);
      forall i, j :: 0 <= i < |ps| && 0 <= j < |ps| && i != j ==> ps[i] != ps[j]
  {
    StackedBands(800, 0, 150, 300, 450, 600);
    forall p: Pixel
      ensures p in Pixels(0, 800, 0, 600) <==> p.0 < 800 && p.1 < 600
    {
      PixelsMembership(0, 800, 0, 600, p);
    }
    PixelsDistinct(0, 800, 0, 600);
  }

  /** Rendering the hard-coded regions and painting the results onto the
      800 x 600 canvas succeeds and gives every pixel of the window the
      colour traced from its own camera ray. */
  lemma FramePaintsRaster(camera: (nat, nat) -> Ray, m: Maths, objects: seq<LegacySphere>, lights: seq<Light>,
                          image: map<Pixel, Color>, result: seq<(nat, nat, Vec3)>)
    requires ShadesOf(result, RegionPixels(WORK), PixelShade(m, camera, objects, lights))
    ensures Paint(800, 600, image, result, ToColor).Some?
    ensures forall x: nat, y: nat :: x < 800 && y < 600 ==>
      (x, y) in Paint(800, 600, image, result, ToColor).value
      && Paint(800, 600, image, result, ToColor).value[(x, y)] == ToColor(Trace(m, camera(x, y), objects, lights, 0))
  {
    WorkCoversRaster();
    PaintRaster(image, 800, 600, result, PixelShade(m, camera, objects, lights), ToColor);
  }
}
