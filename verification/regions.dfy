/**
 * Rectangular pixel regions and their traversal, shared by both tracers'
 * `trace_region`: rows from top to bottom, each row from left to right, one
 * shaded triple per pixel; and the canvas update that writes each triple's
 * colour at its pixel.
 */
module Regions {
  import opened Vectors
  import opened Intersections

  type Pixel = (nat, nat)

  /** The pixels of row `y` from column `x0` up to, not including, `x1`. */
  function Row(x0: nat, x1: nat, y: nat): (ps: seq<Pixel>)
    requires x0 <= x1
    ensures |ps| == x1 - x0
    ensures forall i :: 0 <= i < |ps| ==> ps[i] == (x0 + i, y)
  {
    seq(x1 - x0, i requires 0 <= i < x1 - x0 => (x0 + i, y))
  }

  /** The pixels of the rectangle `[x0, x1) x [y0, y1)` in row-major order. */
  function Pixels(x0: nat, x1: nat, y0: nat, y1: nat): seq<Pixel>
    requires x0 <= x1 && y0 <= y1
    decreases y1 - y0
  {
    if y1 == y0 then [] else Pixels(x0, x1, y0, y1 - 1) + Row(x0, x1, y1 - 1)
  }

  /** Strict row-major order: by row, then by column. */
  predicate Before(p: Pixel, q: Pixel) {
    p.1 < q.1 || (p.1 == q.1 && p.0 < q.0)
  }

  lemma {:induction false} PixelsLength(x0: nat, x1: nat, y0: nat, y1: nat)
    requires x0 <= x1 && y0 <= y1
    ensures |Pixels(x0, x1, y0, y1)| == (x1 - x0) * (y1 - y0)
    decreases y1 - y0
  {
    if y1 > y0 {
      PixelsLength(x0, x1, y0, y1 - 1);
    }
  }

  /** Every pixel of the rectangle is listed, and nothing else. */
  lemma {:induction false} PixelsMembership(x0: nat, x1: nat, y0: nat, y1: nat, p: Pixel)
    requires x0 <= x1 && y0 <= y1
    ensures p in Pixels(x0, x1, y0, y1) <==> x0 <= p.0 < x1 && y0 <= p.1 < y1
    decreases y1 - y0
  {
    if y1 > y0 {
      PixelsMembership(x0, x1, y0, y1 - 1, p);
      var row := Row(x0, x1, y1 - 1);
      if p.1 == y1 - 1 && x0 <= p.0 < x1 {
        assert row[p.0 - x0] == p;
      }
    }
  }

  /** The listing is strictly row-major, hence lists each pixel once. */
  lemma {:induction false} PixelsRowMajor(x0: nat, x1: nat, y0: nat, y1: nat)
    requires x0 <= x1 && y0 <= y1
    ensures forall i, j :: 0 <= i < j < |Pixels(x0, x1, y0, y1)| ==>
      Before(Pixels(x0, x1, y0, y1)[i], Pixels(x0, x1, y0, y1)[j])
    decreases y1 - y0
  {
    if y1 > y0 {
      PixelsRowMajor(x0, x1, y0, y1 - 1);
      var top := Pixels(x0, x1, y0, y1 - 1);
      var row := Row(x0, x1, y1 - 1);
      var ps := top + row;
      forall i, j | 0 <= i < j < |ps|
        ensures Before(ps[i], ps[j])
      {
        if j < |top| {
          assert ps[i] == top[i] && ps[j] == top[j];
          assert Before(top[i], top[j]);
        } else if i < |top| {
          assert top[i] in top;
          PixelsMembership(x0, x1, y0, y1 - 1, top[i]);
          assert ps[j] == row[j - |top|];
          assert ps[i].1 < y1 - 1;
        } else {
          assert ps[i] == row[i - |top|] && ps[j] == row[j - |top|];
        }
      }
    }
  }

  lemma PixelsDistinct(x0: nat, x1: nat, y0: nat, y1: nat)
    requires x0 <= x1 && y0 <= y1
    ensures var ps := Pixels(x0, x1, y0, y1);
      forall i, j :: 0 <= i < |ps| && 0 <= j < |ps| && i != j ==> ps[i] != ps[j]
  {
    PixelsRowMajor(x0, x1, y0, y1);
  }

  /** Two vertically adjacent rectangles list the pixels of their union. */
  lemma {:induction false} PixelsSplit(x0: nat, x1: nat, a: nat, b: nat, c: nat)
    requires x0 <= x1 && a <= b <= c
    ensures Pixels(x0, x1, a, b) + Pixels(x0, x1, b, c) == Pixels(x0, x1, a, c)
    decreases c - b
  {
    if c > b {
      PixelsSplit(x0, x1, a, b, c - 1);
      var row := Row(x0, x1, c - 1);
      assert Pixels(x0, x1, a, b) + (Pixels(x0, x1, b, c - 1) + row)
          == (Pixels(x0, x1, a, b) + Pixels(x0, x1, b, c - 1)) + row;
    }
  }

  /** One output triple: a pixel and its shade. */
  function Shaded(p: Pixel, shade: (nat, nat) -> Vec3): (nat, nat, Vec3) {
    (p.0, p.1, shade(p.0, p.1))
  }

  /** `result` is the listing `ps`, each pixel carrying its shade. */
  ghost predicate ShadesOf(result: seq<(nat, nat, Vec3)>, ps: seq<Pixel>, shade: (nat, nat) -> Vec3) {
    |result| == |ps| && forall k :: 0 <= k < |ps| ==> result[k] == Shaded(ps[k], shade)
  }

  /** Shaded listings concatenate. */
  lemma ShadesOfConcat(a: seq<(nat, nat, Vec3)>, ps: seq<Pixel>, b: seq<(nat, nat, Vec3)>, qs: seq<Pixel>,
                       shade: (nat, nat) -> Vec3)
    requires ShadesOf(a, ps, shade) && ShadesOf(b, qs, shade)
    ensures ShadesOf(a + b, ps + qs, shade)
  {
    forall k | 0 <= k < |ps + qs|
      ensures (a + b)[k] == Shaded((ps + qs)[k], shade)
    {
      if k >= |ps| {
        assert (a + b)[k] == b[k - |ps|] && (ps + qs)[k] == qs[k - |ps|];
      }
    }
  }

  /** The two nested loops of `trace_region`: rows `y0..y1`, columns
      `x0..x1`, one triple pushed per pixel. */
  method Collect(x0: nat, x1: nat, y0: nat, y1: nat, shade: (nat, nat) -> Vec3)
    returns (result: seq<(nat, nat, Vec3)>)
    requires x0 <= x1 && y0 <= y1
    ensures ShadesOf(result, Pixels(x0, x1, y0, y1), shade)
    ensures |result| == (x1 - x0) * (y1 - y0)
  {
    result := [];
    for y := y0 to y1
      invariant ShadesOf(result, Pixels(x0, x1, y0, y), shade)
    {
      ghost var done := Pixels(x0, x1, y0, y);
      for x := x0 to x1
        invariant ShadesOf(result, done + Row(x0, x, y), shade)
      {
        result := result + [(x, y, shade(x, y))];
        assert done + Row(x0, x + 1, y) == done + Row(x0, x, y) + [(x, y)];
      }
    }
    PixelsLength(x0, x1, y0, y1);
  }

  /** The triple addresses a pixel of the `width` x `height` canvas. */
  predicate OnCanvas(t: (nat, nat, Vec3), width: nat, height: nat) {
    t.0 < width && t.1 < height
  }

  /** The canvas update: each triple in turn overwrites its pixel of the
      `width` x `height` canvas with the converted colour. Indexing outside
      the canvas fails, and the frame then yields no image. */
  function Paint<C>(width: nat, height: nat, image: map<Pixel, C>, results: seq<(nat, nat, Vec3)>,
                    convert: Vec3 -> C): (r: Option<map<Pixel, C>>)
    ensures r.None? <==> exists k :: 0 <= k < |results| && !OnCanvas(results[k], width, height)
    ensures r.Some? ==> forall k :: 0 <= k < |results| ==> (results[k].0, results[k].1) in r.value
    ensures r.Some? ==> forall p :: p in image ==> p in r.value
  {
    if |results| == 0 then Some(image)
    else
      var n := |results| - 1;
      var last := results[n];
      var before := Paint(width, height, image, results[..n], convert);
      assert forall k :: 0 <= k < n ==> results[..n][k] == results[k];
      if before.None? || !OnCanvas(last, width, height) then None
      else Some(before.value[(last.0, last.1) := convert(last.2)])
  }

  /** Painting shaded pixels of the canvas succeeds, leaves every listed
      pixel with the colour of its own shade, whatever the order of the
      writes, and every other pixel as it was. */
  lemma {:induction false} PaintShades<C>(width: nat, height: nat, image: map<Pixel, C>, ps: seq<Pixel>,
                                          results: seq<(nat, nat, Vec3)>, shade: (nat, nat) -> Vec3, convert: Vec3 -> C)
    requires ShadesOf(results, ps, shade)
    requires forall p :: p in ps ==> p.0 < width && p.1 < height
    ensures Paint(width, height, image, results, convert).Some?
    ensures forall p :: p in ps ==> Paint(width, height, image, results, convert).value[p] == convert(shade(p.0, p.1))
    ensures forall p :: p in image && p !in ps ==> Paint(width, height, image, results, convert).value[p] == image[p]
  {
    forall k | 0 <= k < |results|
      ensures OnCanvas(results[k], width, height)
    {
      assert ps[k] in ps;
    }
    if |results| > 0 {
      var n := |results| - 1;
      PaintShades(width, height, image, ps[..n], results[..n], shade, convert);
      var painted := Paint(width, height, image, results, convert).value;
      forall p | p in ps
        ensures painted[p] == convert(shade(p.0, p.1))
      {
        if p != ps[n] {
          var k :| 0 <= k < |ps| && ps[k] == p;
          assert p in ps[..n];
        }
      }
      forall p | p in image && p !in ps
        ensures painted[p] == image[p]
      {
        assert p !in ps[..n];
      }
    }
  }

  /** Painting a shaded listing of the whole raster `[0, width) x [0, height)`
      succeeds, colours every raster pixel by its own shade and leaves every
      other pixel as it was. */
  lemma PaintRaster<C>(image: map<Pixel, C>, width: nat, height: nat, results: seq<(nat, nat, Vec3)>,
                       shade: (nat, nat) -> Vec3, convert: Vec3 -> C)
    requires ShadesOf(results, Pixels(0, width, 0, height), shade)
    ensures Paint(width, height, image, results, convert).Some?
    ensures forall x: nat, y: nat :: x < width && y < height ==>
      (x, y) in Paint(width, height, image, results, convert).value
      && Paint(width, height, image, results, convert).value[(x, y)] == convert(shade(x, y))
    ensures forall p :: p in image && !(p.0 < width && p.1 < height) ==>
      Paint(width, height, image, results, convert).value[p] == image[p]
  {
    var ps := Pixels(0, width, 0, height);
    forall p: Pixel
      ensures p in ps <==> p.0 < width && p.1 < height
    {
      PixelsMembership(0, width, 0, height, p);
    }
    PaintShades(width, height, image, ps, results, shade, convert);
    forall x: nat, y: nat | x < width && y < height
      ensures (x, y) in Paint(width, height, image, results, convert).value
    {
      var k :| 0 <= k < |ps| && ps[k] == (x, y);
      assert results[k] == Shaded(ps[k], shade);
    }
  }

  /** A listing that holds a pixel outside the canvas cannot be painted. */
  lemma PaintOffCanvasFails<C>(width: nat, height: nat, image: map<Pixel, C>, ps: seq<Pixel>,
                               results: seq<(nat, nat, Vec3)>, shade: (nat, nat) -> Vec3, convert: Vec3 -> C, p: Pixel)
    requires ShadesOf(results, ps, shade)
    requires p in ps && !(p.0 < width && p.1 < height)
    ensures Paint(width, height, image, results, convert).None?
  {
    var k :| 0 <= k < |ps| && ps[k] == p;
    assert results[k] == Shaded(ps[k], shade);
    assert !OnCanvas(results[k], width, height);
  }
}
