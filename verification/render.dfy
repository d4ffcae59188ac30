/**
 * The current tracer (src/rt/mod.rs): the shared tracing algorithm over a
 * scene of bounding groups with the ambient base colour, region tracing, and
 * the split of the raster into row bands.
 */
module Render {
  import opened Vectors
  import opened Numerics
  import opened Intersections
  import opened Spheres
  import opened Nodes
  import opened Shading
  import opened Regions
  import opened Colors
  import Queries
  import Tracing

  /** The base colour of every surface in this snapshot. */
  const AMBIENT_LIGHT: Vec3 := Splat(0.5)

  /** The scene the tracer sees: the groups, each tested box first, the
      spheres' normals, and the ambient base colour. */
  function SceneOf(m: Maths, nodes: seq<Node>): Tracing.Scene<Node, Sphere> {
    Tracing.Scene(nodes, (ray: Ray) => Nodes.Probe(m, ray), (s: Sphere, p: Vec3) => s.Normal(m, p), AMBIENT_LIGHT)
  }

  /** `any_intersection`: some group reports a hit. */
  function AnyIntersection(m: Maths, ray: Ray, nodes: seq<Node>): (r: bool)
    ensures r <==> exists i :: 0 <= i < |nodes| && nodes[i].Intersects(m, ray).Some?
    ensures r <==> NearestIntersection(m, ray, nodes).Some?
  {
    Tracing.AnyIntersection(SceneOf(m, nodes), ray)
  }

  /** `nearest_intersection`: the minimum over the groups' hits, the later
      one on ties. */
  function NearestIntersection(m: Maths, ray: Ray, nodes: seq<Node>): (r: Option<Intersection<Sphere>>)
    ensures Queries.IsNearestHit(Nodes.Probe(m, ray), nodes, r)
  {
    Tracing.NearestIntersection(SceneOf(m, nodes), ray)
  }

  /** `trace` over groups with the ambient base colour: zero when no group
      is hit; never negative for non-negative lights. */
  function Trace(m: Maths, ray: Ray, nodes: seq<Node>, lights: seq<Light>, depth: int): (r: Vec3)
    ensures NearestIntersection(m, ray, nodes).None? ==> r == Zero
    ensures PowSound(m) && LightsNonNegative(lights) ==> NonNegative(r)
  {
    Tracing.Trace(m, SceneOf(m, nodes), lights, ray, depth)
  }

  /** The colour traced for pixel `(x, y)` from the camera's ray. */
  function PixelShade(m: Maths, camera: (nat, nat) -> Ray, nodes: seq<Node>, lights: seq<Light>): (nat, nat) -> Vec3 {
    (x: nat, y: nat) => Trace(m, camera(x, y), nodes, lights, 0)
  }

  /** A row band `(width, first row, end row)`. */
  type Band = (nat, nat, nat)

  /** `trace_region`: every pixel of the full-width band, row-major, with
      its traced colour. The band must not be inverted: the capacity
      computation `minmax.2 - minmax.1` is an unsigned subtraction. */
  method TraceRegion(minmax: Band, camera: (nat, nat) -> Ray, m: Maths, nodes: seq<Node>, lights: seq<Light>)
    returns (result: seq<(nat, nat, Vec3)>)
    requires minmax.1 <= minmax.2
    ensures ShadesOf(result, Pixels(0, minmax.0, minmax.1, minmax.2), PixelShade(m, camera, nodes, lights))
    ensures |result| == minmax.0 * (minmax.2 - minmax.1)
  {
    result := Collect(0, minmax.0, minmax.1, minmax.2, PixelShade(m, camera, nodes, lights));
  }

  predicate Upright(bands: seq<Band>) {
    forall k :: 0 <= k < |bands| ==> bands[k].1 <= bands[k].2
  }

  /** The pixels of the bands, band after band. */
  function BandPixels(bands: seq<Band>): seq<Pixel>
    requires Upright(bands)
  {
    if |bands| == 0 then []
    else
      var last := bands[|bands| - 1];
      BandPixels(bands[..|bands| - 1]) + Pixels(0, last.0, last.1, last.2)
  }

  /** The sequential counterpart of mapping `trace_region` over the bands
      and collecting the results in band order. */
  method RenderBands(work: seq<Band>, camera: (nat, nat) -> Ray, m: Maths, nodes: seq<Node>, lights: seq<Light>)
    returns (result: seq<(nat, nat, Vec3)>)
    requires Upright(work)
    ensures ShadesOf(result, BandPixels(work), PixelShade(m, camera, nodes, lights))
  {
    result := [];
    for k := 0 to |work|
      invariant ShadesOf(result, BandPixels(work[..k]), PixelShade(m, camera, nodes, lights))
    {
      var region := TraceRegion(work[k], camera, m, nodes, lights);
      BandPixelsSnoc(work, k);
      ShadesOfConcat(result, BandPixels(work[..k]), region, Pixels(0, work[k].0, work[k].1, work[k].2),
                     PixelShade(m, camera, nodes, lights));
      result := result + region;
    }
    assert work[..|work|] == work;
  }

  lemma BandPixelsSnoc(work: seq<Band>, k: nat)
    requires Upright(work) && k < |work|
    ensures BandPixels(work[..k + 1]) == BandPixels(work[..k]) + Pixels(0, work[k].0, work[k].1, work[k].2)
  {
    assert work[..k + 1][..k] == work[..k];
  }

  /** The bands are full width, contiguous and in order, from row `a` down
      to row `b`. */
  predicate Tiles(bands: seq<Band>, width: nat, a: nat, b: nat) {
    if |bands| == 0 then a == b
    else
      var last := bands[|bands| - 1];
      && last.0 == width && last.1 <= last.2 && last.2 == b
      && Tiles(bands[..|bands| - 1], width, a, last.1)
  }

  /** Row `y` lies in some band. */
  ghost predicate Covered(bands: seq<Band>, y: nat) {
    exists k :: 0 <= k < |bands| && bands[k].1 <= y < bands[k].2
  }

  /** Tiling bands cover exactly the rows from `a` up to `b`, are pairwise
      disjoint, and list exactly the pixels of that rectangle in
      row-major order. */
  lemma TilesPartition(bands: seq<Band>, width: nat, a: nat, b: nat)
    requires Tiles(bands, width, a, b)
    ensures a <= b && Upright(bands)
    ensures forall y: nat :: Covered(bands, y) <==> a <= y < b
    ensures forall i, j :: 0 <= i < j < |bands| ==> bands[i].2 <= bands[j].1
    ensures BandPixels(bands) == Pixels(0, width, a, b)
  {
    TilesUpright(bands, width, a, b);
    TilesCover(bands, width, a, b);
    TilesOrdered(bands, width, a, b);
    TilesPixels(bands, width, a, b);
  }

  lemma {:induction false} TilesUpright(bands: seq<Band>, width: nat, a: nat, b: nat)
    requires Tiles(bands, width, a, b)
    ensures a <= b && Upright(bands)
    ensures forall k :: 0 <= k < |bands| ==> a <= bands[k].1 && bands[k].2 <= b
  {
    if |bands| > 0 {
      var n := |bands| - 1;
      TilesUpright(bands[..n], width, a, bands[n].1);
      assert forall k :: 0 <= k < n ==> bands[..n][k] == bands[k];
    }
  }

  lemma {:induction false} TilesCover(bands: seq<Band>, width: nat, a: nat, b: nat)
    requires Tiles(bands, width, a, b)
    ensures forall y: nat :: Covered(bands, y) <==> a <= y < b
  {
    TilesUpright(bands, width, a, b);
    if |bands| > 0 {
      var n := |bands| - 1;
      var last := bands[n];
      var init := bands[..n];
      TilesCover(init, width, a, last.1);
      TilesUpright(init, width, a, last.1);
      forall y: nat
        ensures Covered(bands, y) <==> a <= y < b
      {
        if a <= y < last.1 {
          assert Covered(init, y);
          var k :| 0 <= k < n && init[k].1 <= y < init[k].2;
          assert bands[k] == init[k];
        }
      }
    }
  }

  lemma {:induction false} TilesOrdered(bands: seq<Band>, width: nat, a: nat, b: nat)
    requires Tiles(bands, width, a, b)
    ensures forall i, j :: 0 <= i < j < |bands| ==> bands[i].2 <= bands[j].1
  {
    if |bands| > 0 {
      var n := |bands| - 1;
      var init := bands[..n];
      TilesOrdered(init, width, a, bands[n].1);
      TilesUpright(init, width, a, bands[n].1);
      forall i, j | 0 <= i < j < |bands|
        ensures bands[i].2 <= bands[j].1
      {
        assert init[i] == bands[i];
        if j < n {
          assert init[j] == bands[j];
        }
      }
    }
  }

  lemma {:induction false} TilesPixels(bands: seq<Band>, width: nat, a: nat, b: nat)
    requires Tiles(bands, width, a, b)
    ensures a <= b && Upright(bands) && BandPixels(bands) == Pixels(0, width, a, b)
  {
    TilesUpright(bands, width, a, b);
    if |bands| > 0 {
      var n := |bands| - 1;
      var last := bands[n];
      TilesPixels(bands[..n], width, a, last.1);
      TilesUpright(bands[..n], width, a, last.1);
      PixelsSplit(0, width, a, last.1, b);
    }
  }

  /** `num_cpus::get()`-dependent work split as written: four bands of
      `height / cpus` rows each, whatever the number of CPUs. */
  function Work(width: nat, height: nat, cpus: nat): (bands: seq<Band>)
    requires cpus > 0
    ensures |bands| == 4 && Upright(bands) && Tiles(bands, width, 0, 4 * (height / cpus))
  {
    var fh := height / cpus;
    // the loop `for frag in 0..4`, unrolled
    var bands := [(width, 0 * fh, 1 * fh), (width, 1 * fh, 2 * fh), (width, 2 * fh, 3 * fh), (width, 3 * fh, 4 * fh)];
    assert Tiles(bands[..1], width, 0, fh) by {
      assert bands[..1][..0] == [];
    }
    assert Tiles(bands[..2], width, 0, 2 * fh) by {
      assert bands[..2][..1] == bands[..1];
    }
    assert Tiles(bands[..3], width, 0, 3 * fh) by {
      assert bands[..3][..2] == bands[..2];
    }
    assert bands[..3] == bands[..|bands| - 1];
    bands
  }

  /** The split as written covers the raster's rows exactly when four bands
      of `height / cpus` rows add up to `height`. */
  lemma WorkCoversRasterIff(width: nat, height: nat, cpus: nat)
    requires cpus > 0
    ensures (forall y: nat :: Covered(Work(width, height, cpus), y) <==> y < height)
        <==> 4 * (height / cpus) == height
  {
    var fh := height / cpus;
    var work := Work(width, height, cpus);
    TilesPartition(work, width, 0, 4 * fh);
    if 4 * fh < height {
      assert !Covered(work, 4 * fh);
    } else if 4 * fh > height {
      assert Covered(work, height);
    }
  }

  /** With eight CPUs and 600 rows, the bands stop at row 300. */
  lemma WorkMissesRowsOnEightCpus()
    ensures !Covered(Work(800, 600, 8), 300)
  {
    TilesPartition(Work(800, 600, 8), 800, 0, 300);
  }

  /** With two CPUs and 600 rows, the bands run on to row 1200. */
  lemma WorkOverrunsOnTwoCpus()
    ensures Covered(Work(800, 600, 2), 600) && Covered(Work(800, 600, 2), 1199)
  {
    TilesPartition(Work(800, 600, 2), 800, 0, 1200);
  }

  /** The corrected split: one band of `height / count` rows per CPU, the
      last band taking the remaining rows. */
  function Bands(width: nat, height: nat, count: nat): (bands: seq<Band>)
    requires count > 0
    ensures |bands| == count && Upright(bands)
  {
    seq(count, k requires 0 <= k < count => BandOf(width, height, count, k))
  }

  /** Band `k` of the corrected split: rows from `k * fh`, up to the next
      band's first row, or up to `height` for the last band. */
  function BandOf(width: nat, height: nat, count: nat, k: nat): (band: Band)
    requires k < count
    ensures band.1 <= band.2
  {
    var fh := height / count;
    BandsFitRaster(height, count);
    BandUpright(k, count, fh, height);
    (width, k * fh, if k == count - 1 then height else (k + 1) * fh)
  }

  /** `count` bands of `height / count` rows fit in the raster. */
  lemma BandsFitRaster(height: nat, count: nat)
    requires count > 0
    ensures count * (height / count) <= height
  {
  }

  /** Band `k` of the corrected split starts no later than it ends. */
  lemma BandUpright(k: nat, count: nat, fh: nat, height: nat)
    requires k < count && count * fh <= height
    ensures k * fh <= (if k == count - 1 then height else (k + 1) * fh)
  {
    assert (k + 1) * fh == k * fh + fh;
    assert k * fh <= count * fh;
  }

  /** The corrected split tiles the raster for every CPU count. */
  lemma BandsTileRaster(width: nat, height: nat, count: nat)
    requires count > 0
    ensures Tiles(Bands(width, height, count), width, 0, height)
  {
    var fh := height / count;
    var bands := Bands(width, height, count);
    assert (count - 1) * fh <= count * fh <= height;
    BandsTilePrefix(width, height, count, count - 1);
    assert bands[..count][..count - 1] == bands[..count - 1];
    assert bands[..count] == bands;
  }

  lemma {:induction false} BandsTilePrefix(width: nat, height: nat, count: nat, n: nat)
    requires count > 0 && n < count
    ensures Tiles(Bands(width, height, count)[..n], width, 0, n * (height / count))
  {
    if n > 0 {
      var fh := height / count;
      var bands := Bands(width, height, count);
      BandsTilePrefix(width, height, count, n - 1);
      assert bands[..n][..n - 1] == bands[..n - 1];
      assert (n - 1) * fh + fh == n * fh;
    }
  }

  /** Rendering the corrected bands and painting the results onto the
      `width` x `height` canvas succeeds, gives every pixel of the raster the
      colour traced from its own camera ray, and leaves any other pixel of
      the image untouched. */
  lemma CoveringFramePaintsRaster(width: nat, height: nat, cpus: nat, camera: (nat, nat) -> Ray, m: Maths,
                                  nodes: seq<Node>, lights: seq<Light>, image: map<Pixel, Color>,
                                  result: seq<(nat, nat, Vec3)>)
    requires cpus > 0
    requires ShadesOf(result, BandPixels(Bands(width, height, cpus)), PixelShade(m, camera, nodes, lights))
    ensures Paint(width, height, image, result, VectorToColor).Some?
    ensures forall x: nat, y: nat :: x < width && y < height ==>
      (x, y) in Paint(width, height, image, result, VectorToColor).value
      && Paint(width, height, image, result, VectorToColor).value[(x, y)] == VectorToColor(Trace(m, camera(x, y), nodes, lights, 0))
    ensures forall p :: p in image && !(p.0 < width && p.1 < height) ==>
      Paint(width, height, image, result, VectorToColor).value[p] == image[p]
  {
    BandsTileRaster(width, height, cpus);
    TilesPartition(Bands(width, height, cpus), width, 0, height);
    PaintRaster(image, width, height, result, PixelShade(m, camera, nodes, lights), VectorToColor);
  }

  /** With the split as written, painting the frame onto the `width` x
      `height` canvas (of non-zero width) succeeds exactly when the four
      bands stay within the canvas rows; otherwise some band indexes a row
      past the canvas (row 600 of a 600-row canvas on two CPUs). */
  lemma WorkFramePaintsIff(width: nat, height: nat, cpus: nat, camera: (nat, nat) -> Ray, m: Maths,
                           nodes: seq<Node>, lights: seq<Light>, image: map<Pixel, Color>,
                           result: seq<(nat, nat, Vec3)>)
    requires cpus > 0 && width > 0
    requires ShadesOf(result, BandPixels(Work(width, height, cpus)), PixelShade(m, camera, nodes, lights))
    ensures Paint(width, height, image, result, VectorToColor).Some? <==> 4 * (height / cpus) <= height
  {
    var rows := 4 * (height / cpus);
    var ps := BandPixels(Work(width, height, cpus));
    var shade := PixelShade(m, camera, nodes, lights);
    TilesPartition(Work(width, height, cpus), width, 0, rows);
    if rows <= height {
      forall p | p in ps
        ensures p.0 < width && p.1 < height
      {
        PixelsMembership(0, width, 0, rows, p);
      }
      PaintShades(width, height, image, ps, result, shade, VectorToColor);
    } else {
      PixelsMembership(0, width, 0, rows, (0, height));
      PaintOffCanvasFails(width, height, image, ps, result, shade, VectorToColor, (0, height));
    }
  }
}
