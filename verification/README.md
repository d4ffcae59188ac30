# A verified model of the `rt` ray tracer

`rt` is a small Rust ray tracer in two snapshots. The current one lives in
`src/rt/` and renders a scene of bounding nodes, each holding spheres. The
older one is the top-level `src/*.rs` used by `src/main.rs`, and renders a
flat list of spheres. This project models the logic of both in Dafny and
proves what it does:

- the sphere hit test, with its two sign guards and its near root;
- the ordering of intersections, whose `cmp` never answers `Equal`;
- the slab test of the axis-aligned box, over extended reals;
- the enclosing-box fold of a node and the culling it allows;
- the nearest-hit and any-hit queries over a scene;
- direct lighting with shadows, and the depth-bounded recursive tracer;
- the pixel regions and bands a frame is split into, and their painting;
- the clamp-and-truncate conversion to a colour byte.

Arithmetic is over Dafny's `real`. The numeric primitives (`sqrt`,
`normalize`, `powi(50)` and IEEE division) are fields of a `Maths` record
that every operation takes as a parameter. Small soundness predicates
(`SqrtSound`, `PowSound`, `DivSound`) say what a proof may assume of them.
The slab parameters are extended reals (`NegInf | Fin(r) | PosInf`),
because the renderer relies on division by a zero direction component
giving an infinity.

Modules, one per source concept:

| module | file | models |
|---|---|---|
| `Numerics` | numerics.dfy | `Maths`, extended reals, small real lemmas |
| `Vectors` | vectors.dfy | `Vec3`, `Ray`, component-wise operations |
| `Intersections` | intersection.dfy | `src/intersection.rs` |
| `Spheres` | sphere.dfy | `src/rt/sphere.rs` |
| `LegacySpheres` | legacy_sphere.dfy | `src/sphere.rs` |
| `Bounds` | bounds.dfy | `src/bounds.rs` |
| `Aabbs` | aabb.dfy | `src/aabb.rs` |
| `Queries` | queries.dfy | `filter_map(..).min()` and `any(..)` over a slice |
| `Nodes` | node.dfy | `src/rt/node.rs` |
| `LegacyNodes` | legacy_node.dfy | `src/node.rs` |
| `Shading` | shading.dfy | the diffuse and specular terms of `apply_light` |
| `Chains` | chain.dfy | the chain of rays that `trace` follows, as a reference sum |
| `Tracing` | tracer.dfy | `apply_light`, `apply_lighting` and `trace`, generic over the scene |
| `Regions` | regions.dfy | pixel rectangles, collecting shades, painting an image |
| `Colors` | colors.dfy | both `to_color` functions |
| `Render` | render.dfy | `src/rt/mod.rs` |
| `LegacyRender` | legacy_render.dfy | `src/main.rs` |

Both snapshots share one tracer. `Tracing.Scene` bundles the scene's items,
how one item is probed by a ray, the normal of the shape that was hit, and
the base colour of the diffuse term. `Render.SceneOf` supplies nodes and
the ambient light (0.5, 0.5, 0.5). `LegacyRender.SceneOf` supplies spheres
and the gray base colour that `src/main.rs` passes down.

## Model

| member | source | states |
|---|---|---|
| Intersections.New | src/intersection.rs:14-20 | The ray, distance and shape are stored unchanged. |
| Intersections.HitPoint | src/intersection.rs:26-28 | The hit point lies `distance` times the direction away from the ray origin; at distance 0 it is the origin. |
| Intersections.HitPointAtDistance | src/intersection.rs:26-28 | For a unit direction the hit point is exactly `distance` away from the origin (squared distances agree). |
| Intersections.Cmp | src/intersection.rs:31-39 | `Less` exactly when the first distance is smaller, `Greater` exactly when it is not, and never `Equal`. |
| Intersections.PartialCmp | src/intersection.rs:41-45 | Always `Some`, never `Equal`, and `Less` exactly when the first distance is smaller. |
| Intersections.CmpNotAntisymmetric | src/intersection.rs:31-52 | At equal distances `cmp(a, b)` and `cmp(b, a)` are both `Greater`, `cmp(a, a)` is `Greater`, and `eq` holds although `cmp` is not `Equal`: the ordering is not a lawful total order. |
| Intersections.Eq | src/intersection.rs:48-52 | `eq` holds exactly when `cmp` answers `Greater` in both argument orders, that is exactly at equal distances. |
| Intersections.MinBy | src/intersection.rs:31-39 | `std::cmp::min_by` under this `cmp` returns one of its arguments at the smaller distance, and the second one on a tie. |
| Spheres.New | src/rt/sphere.rs:13-22 | The constructor caches `radius^2` and the corners `center -/+ radius`. |
| Spheres.NewBracketsCenter | src/rt/sphere.rs:13-22 | For a non-negative radius the corners bracket the center and the caches are consistent with each other. |
| Spheres.Sphere.Intersects | src/rt/sphere.rs:30-47 | No hit when the center is behind the origin; with the center ahead, a hit exactly when the discriminant is non-negative; a hit carries the given ray and this sphere, and lies no further than the projection of the center. |
| Spheres.HitIsNearRootOf | src/rt/sphere.rs:35-44 | A reported hit means both guards passed, and its distance is `v - sqrt(discriminant)`. |
| Spheres.HitLiesOnSphere | src/rt/sphere.rs:30-47 | For a unit direction, the reported hit point lies on the sphere. |
| Spheres.NearRootOnSphere | src/rt/sphere.rs:44 | For a unit direction, the point at the near root lies on the sphere. |
| Spheres.HitIsNearRoot | src/rt/sphere.rs:30-47 | The reported distance is the nearer root: no point of the line at a smaller parameter is inside or on the sphere. |
| Spheres.InsideBallNotBeforeNearRoot | src/rt/sphere.rs:44 | A point of the line inside or on the ball is not before the near root. |
| Spheres.MissAvoidsBall | src/rt/sphere.rs:40-42 | A miss with the center ahead means the whole line stays outside the closed ball. |
| Spheres.OutsideBall | src/rt/sphere.rs:40-42 | A negative discriminant means every point of the line is strictly outside the ball. |
| Spheres.AlongRay | src/rt/sphere.rs:33-40 | The discriminant is the squared radius minus the squared distance from the center to the line, so the test is the geometric one. |
| Spheres.InsideOriginGivesNegativeDistance | src/rt/sphere.rs:40-44 | A ray starting strictly inside the sphere, not pointing away from the center, is reported as a hit at a negative distance; it is not discarded. |
| Spheres.HitWithinCorners | src/rt/sphere.rs:50-58 | For a valid sphere and a unit direction, a reported hit point lies between the cached corners. |
| Spheres.SurfaceWithinCorners | src/rt/sphere.rs:50-58 | Every surface point of a valid sphere lies between its corners. |
| Spheres.AxisWithinRadius | src/rt/sphere.rs:13-22 | One coordinate of an offset of length `r` lies in `[-r, r]`, which is why the corners `center -/+ r` enclose the sphere. |
| Spheres.NormalAtSurface | src/rt/sphere.rs:26-28 | At a surface point of a valid sphere of positive radius, the normal scaled by the radius is the offset from the center: it is the outward unit normal (given that `normalize` divides by the length that `sqrt` gives). |
| Spheres.OffsetSphereMissed | benches/benchmark.rs:18-21 | The sphere at (1,1,3) of radius 1 with a ray from the origin along +Z is a miss (`v = 3`, discriminant -1), although the benchmark labels it a hit. |
| LegacySpheres.New | src/sphere.rs:12-18 | The constructor stores center and radius and caches `radius^2`. |
| LegacySpheres.LegacySphere.Intersects | src/sphere.rs:26-39 | No hit when the center is behind the origin; a hit carries the given ray and this sphere and lies no further than the projection of the center. |
| LegacySpheres.AgreesWithCurrentSphere | src/sphere.rs:26-52 | Built from the same center and radius, the older sphere has the same corners (recomputed instead of cached) as the current one, and for every ray the same hit or miss at the same distance along the same ray. |
| LegacySpheres.SameQuadraticSameHit | src/sphere.rs:26-39 | Any older and current sphere with the same center and squared radius answer every ray alike. |
| LegacySpheres.CenteredSphereHitAtTwo | src/sphere.rs:26-39 | The sphere at (0,0,3) of radius 1 with a ray from the origin along +Z is hit at distance 2. |
| LegacySpheres.CenteredSphereMissedBackwards | src/sphere.rs:27-30 | The same sphere with the ray along -Z is a miss, because the center is behind. |
| LegacySpheres.NormalAtSurface | src/sphere.rs:22-24 | At a surface point of a sphere of positive radius, the normal scaled by the radius is the offset from the center. |
| Bounds.SlabTestMeansPairwiseOrdered | src/bounds.rs:15-40 | After the swaps put each axis in order, the swaps, the x/y disjointness return, the narrowing and the z checks together accept exactly when every near parameter is at most every far parameter. |
| Bounds.SlabTestMeansSharedParameter | src/bounds.rs:9-43 | The slab test accepts exactly when the three closed per-axis parameter intervals share a parameter; nothing asks that parameter to be non-negative. |
| Bounds.BelowUpper | src/bounds.rs:27-32 | A value is below the larger of two bounds exactly when it is below one of them: the narrowed far end is the smaller of the two far ends. |
| Bounds.LowerBelow | src/bounds.rs:27-32 | The smaller of two bounds is below a value exactly when one of them is: the narrowed near end is the larger of the two near ends. |
| Bounds.LowerBelowUpper | src/bounds.rs:15-21 | After the swap, each axis interval has its near end at most its far end. |
| Bounds.IntersectsBounds | src/bounds.rs:9-43 | `intersects_bounds` accepts exactly when the per-axis parameters of the two corners, as computed by the renderer's division, share a parameter. |
| Bounds.AxisContainsParameter | src/bounds.rs:10-11 | On one axis with a non-zero direction component, a point between the planes has its parameter between the planes' parameters. |
| Bounds.PointInBoxPassesSlabTest | src/bounds.rs:9-43 | The test is a superset filter: if some point of the line lies in the box, the test accepts (for a direction with no zero component). |
| Bounds.BoxAheadAccepted | benches/benchmark.rs:7-10 | The box (-1,-1,1)-(1,1,3) with a ray from the origin along +Z is accepted. |
| Bounds.BoxBehindAccepted | benches/benchmark.rs:13-16 | The same box with the ray along -Z is also accepted, although it lies entirely behind the origin and the benchmark labels it a miss. |
| Aabbs.New | src/aabb.rs:14-26 | `AABB::new(a, b).mins()` is `a` and `.maxs()` is `b`. |
| Aabbs.NewKeepsInvertedBox | src/aabb.rs:14-16 | An inverted box is stored as given; the constructor checks nothing. |
| Aabbs.AABB.IntersectsBounds | src/aabb.rs:19-27 | The box's slab test is the default one applied to the stored corners, so it accepts exactly when the three parameter intervals share a parameter. |
| Queries.MinOf | src/rt/node.rs:17-22 | `min()` over the collected hits is `None` exactly when there are none, and otherwise at most every hit's distance (which one is returned is stated by Queries.MinOfIsLastMinimal). |
| Queries.MinOfIsLastMinimal | src/intersection.rs:31-39 | `min()` under this `cmp` returns one of the hits, and every later hit is strictly farther: on a tie the last of the nearest hits wins. |
| Queries.FilterMapKeepsTheHits | src/rt/node.rs:17-22 | `filter_map` keeps no more elements than there are items; every kept element is some item's hit, and every item's hit is kept. |
| Queries.AnyHit | src/node.rs:9-13 | `any(is_some)` holds exactly when some item's probe reports a hit. |
| Queries.Nearest | src/rt/node.rs:17-22 | `filter_map(intersects).min()` is `None` exactly when every item misses; otherwise it is the hit of some item, no further than any item's hit, and the last such item's hit when several tie. |
| Queries.NearestIsNearestHit | src/rt/node.rs:17-22 | The same, proved by induction on the items, using that `min` keeps the later of two equal hits. |
| Queries.MinOfSnoc | src/intersection.rs:31-39 | Appending a hit to the list folds it into the running minimum with `min_by`. |
| Queries.AnyAgreesWithNearest | src/node.rs:9-20 | `any_intersection` holds exactly when `nearest_intersection` is `Some`. |
| Nodes.New | src/rt/node.rs:24-36 | The fold from `f32::MAX`/`f32::MIN` gives a box that encloses every member; for members in single-precision range each box coordinate is some member's corner coordinate (the box is tight); with no members the box is the inverted one from MAX to MIN; members are stored unchanged and in order. |
| Nodes.Node.NearestIntersection | src/rt/node.rs:17-22 | `None` exactly when every member misses; otherwise a member hit at minimal distance, and the later member's on a tie. |
| Nodes.Node.Intersects | src/rt/node.rs:38-44 | When the box test fails, `None` without consulting the members; when it passes, the nearest member hit. |
| Nodes.MemberHitPassesBox | src/rt/node.rs:24-44 | For a unit direction with no zero component, a member's hit passes the box test of a node whose box encloses the member. |
| Nodes.CullingKeepsEveryHit | src/rt/node.rs:38-44 | For an enclosing box and valid members, culling never changes the answer: `intersects` equals `nearest_intersection`. |
| LegacyNodes.New | src/node.rs:23-25 | The given box and members are stored unchanged; enclosure is neither computed nor checked. |
| LegacyNodes.LegacyNode.AnyIntersection | src/node.rs:9-13 | True exactly when some member reports a hit, and exactly when `nearest_intersection` is `Some`. |
| LegacyNodes.LegacyNode.NearestIntersection | src/node.rs:15-20 | `None` exactly when every member misses; otherwise a member hit at minimal distance, the later member's on a tie. |
| LegacyNodes.LegacyNode.Intersects | src/node.rs:27-33 | `None` when the box test fails, otherwise the nearest member hit. |
| Shading.Diffuse | src/rt/mod.rs:67-72 | The diffuse term is zero unless `illum > 0`, and non-negative for non-negative colours. |
| Shading.Specular | src/rt/mod.rs:76-81 | The specular term is zero unless `specular > 0`, and non-negative for a non-negative light colour. |
| Shading.Unshadowed | src/rt/mod.rs:66-83 | Diffuse plus specular is non-negative for non-negative colours. |
| Shading.DarkSideContributesNothing | src/rt/mod.rs:66-83 | A light facing away from both the normal and the reflected ray contributes nothing. |
| Tracing.AnyIntersection | src/rt/mod.rs:42-44 | True exactly when some item reports a hit, and exactly when the nearest hit exists. |
| Tracing.NearestIntersection | src/rt/mod.rs:46-48 | `None` exactly when every item misses; otherwise a hit at minimal distance, the later item's on a tie. |
| Tracing.ApplyLight | src/rt/mod.rs:50-84 | Zero when the shadow ray toward the light hits anything; otherwise the diffuse and specular terms with the scene's base colour (ambient light here, the passed gray in `src/main.rs:55-89`); non-negative for non-negative colours. |
| Tracing.ApplyLighting | src/rt/mod.rs:86-98 | The sum of `apply_light` over the lights: zero with no lights, the single term with one light, non-negative for non-negative colours. |
| Tracing.LightingSplits | src/rt/mod.rs:86-98 | The sum over two lists of lights in sequence is the sum over the first plus the sum over the second. |
| Tracing.ShadowedLightIgnored | src/rt/mod.rs:86-98 | Removing a shadowed light, wherever it stands in the list, does not change the lighting sum. |
| Tracing.AllShadowedIsDark | src/rt/mod.rs:86-98 | When every light is shadowed, the lighting sum is zero. |
| Tracing.Trace | src/rt/mod.rs:100-127 | Zero on a miss; non-negative for non-negative colours. |
| Tracing.TraceIsChainSum | src/rt/mod.rs:100-127 | `trace` from depth `d` equals the sum of the direct terms along the chain of rays that restart at each hit point along its normal, stopping at the first miss and taking at most `max(0, 3 - d) + 1` terms. |
| Chains.Budget | src/rt/mod.rs:114-123 | The number of terms `trace` may add is at least 1, exactly 1 from depth 3 on, and at most 4 from a non-negative depth. |
| Chains.MissEndsChain | src/rt/mod.rs:125 | Once a ray of the chain misses, every later ray is absent and contributes zero. |
| Chains.MissTotalsZero | src/rt/mod.rs:125 | A chain whose first ray misses sums to zero. |
| Chains.TotalUnfold | src/rt/mod.rs:103-123 | A chain whose first ray hits sums to that hit's direct term plus the sum of the chain from the next ray. |
| Chains.TotalAtHit | src/rt/mod.rs:114-120 | Below depth 3, a hit's direct term plus the chain sum from the reflected ray at the next depth is the chain sum from this ray at this depth. |
| Chains.TotalAtLastHit | src/rt/mod.rs:121-123 | From depth 3 on, the chain sum of a ray that hits is that hit's direct term alone. |
| Render.AnyIntersection | src/rt/mod.rs:42-44 | True exactly when some node reports a hit, and exactly when `nearest_intersection` is `Some`. |
| Render.NearestIntersection | src/rt/mod.rs:46-48 | `None` exactly when every node misses; otherwise a node hit at minimal distance, the later node's on a tie. |
| Render.Trace | src/rt/mod.rs:100-127 | Zero when no node is hit; non-negative for non-negative light colours. |
| Render.TraceRegion | src/rt/mod.rs:129-146 | Exactly `w * (y1 - y0)` triples, in row-major order, one per pixel `(x, y)` with `x < w` and `y0 <= y < y1`, each carrying the traced shade of its camera ray. |
| Render.RenderBands | src/rt/mod.rs:204-207 | Mapping `trace_region` over the bands gives, in order, the shade of every pixel of every band. |
| Render.BandPixelsSnoc | src/rt/mod.rs:204-207 | The pixels of the first `k + 1` bands are those of the first `k` followed by band `k`'s. |
| Render.TilesPartition | src/rt/mod.rs:190-194 | Bands that tile rows `a..b` are contiguous, disjoint and in order, cover exactly those rows, and their pixels in order are the row-major pixels of that rectangle. |
| Render.TilesUpright | src/rt/mod.rs:190-194 | Tiling bands are non-inverted and lie within the tiled rows. |
| Render.TilesCover | src/rt/mod.rs:190-194 | A row is covered by a tiling exactly when it lies in the tiled rows. |
| Render.TilesOrdered | src/rt/mod.rs:190-194 | Each band of a tiling ends no later than any later band starts. |
| Render.TilesPixels | src/rt/mod.rs:190-194 | The pixels of a tiling are the row-major pixels of the tiled rectangle. |
| Render.Work | src/rt/mod.rs:190-194 | The four bands `[k*fh, (k+1)*fh)` with `fh = height / cpus` are upright and tile rows `0..4*fh`. |
| Render.WorkCoversRasterIff | src/rt/mod.rs:190-194 | The bands cover exactly the rows of the raster if and only if `4 * (height / cpus) == height`. |
| Render.WorkMissesRowsOnEightCpus | src/rt/mod.rs:190-194 | With height 600 and 8 CPUs, row 300 is not covered. |
| Render.WorkOverrunsOnTwoCpus | src/rt/mod.rs:190-194 | With height 600 and 2 CPUs, rows 600 and 1199 (outside the raster) are covered. |
| Render.Bands | src/rt/mod.rs:190-194 | The corrected split makes one upright band per CPU. |
| Render.BandOf | src/rt/mod.rs:190-194 | Each band of the corrected split, including the last one that takes the remainder rows, is upright. |
| Render.BandsTileRaster | src/rt/mod.rs:190-194 | The corrected bands tile rows `0..height` for every CPU count. |
| Render.BandsTilePrefix | src/rt/mod.rs:190-194 | The first `n` corrected bands tile rows `0..n * (height / count)`. |
| Render.CoveringFramePaintsRaster | src/rt/mod.rs:204-214 | With the corrected bands, painting the frame stays on the canvas, sets every pixel of the raster to the colour of its traced shade, and leaves pixels outside it unchanged. |
| Render.WorkFramePaintsIff | src/rt/mod.rs:190-214 | With the source's four bands and a positive width, painting the traced frame stays on the `width x height` canvas if and only if `4 * (height / cpus) <= height`. At height 600 on 2 CPUs the bound fails (4 * 300 > 600), so the frame writes rows the canvas does not have. |
| LegacyRender.DirtyIntersects | src/main.rs:36-45 | `dirty_intersects(ray, s)` is `s.intersects(ray).is_some()` for every ray and sphere and any square root. |
| LegacyRender.AnyIntersection | src/main.rs:47-49 | True exactly when some sphere reports a hit, and exactly when `nearest_intersection` is `Some`. |
| LegacyRender.NearestIntersection | src/main.rs:51-53 | `None` exactly when every sphere misses; otherwise a hit at minimal distance, the later sphere's on a tie. |
| LegacyRender.ShadowsAgreeWithDirtyTest | src/main.rs:35-72 | Shadows use the full `intersects` through `any_intersection`, and that decides shadow exactly as the unused `dirty_intersects` would. |
| LegacyRender.Trace | src/main.rs:111-141 | Zero when no sphere is hit; non-negative for non-negative light colours; the same depth-3 recursion along the normal, with the gray base colour. |
| LegacyRender.TraceRegion | src/main.rs:143-163 | Exactly `(max_x - min_x) * (max_y - min_y)` triples, in row-major order, one per pixel of the rectangle, each carrying its traced shade. |
| LegacyRender.RenderRegions | src/main.rs:216-221 | Mapping `trace_region` over the regions gives, in order, the shade of every pixel of every region. |
| LegacyRender.RegionPixelsSnoc | src/main.rs:216-221 | The pixels of the first `k + 1` regions are those of the first `k` followed by region `k`'s. |
| LegacyRender.StackedBands | src/main.rs:202-207 | Four full-width bands stacked row after row have, in order, the pixels of the whole rectangle. |
| LegacyRender.WorkCoversRaster | src/main.rs:202-207 | The four hard-coded regions hold every pixel of 800x600 exactly once, in row-major order. |
| LegacyRender.FramePaintsRaster | src/main.rs:216-228 | Painting the frame stays on the 800x600 canvas and sets every pixel of it to the colour of its traced shade. |
| Regions.PixelsLength | src/rt/mod.rs:135-143 | A rectangle has `(x1 - x0) * (y1 - y0)` pixels. |
| Regions.PixelsMembership | src/rt/mod.rs:136-143 | A pixel is in the rectangle exactly when both coordinates lie in range. |
| Regions.PixelsRowMajor | src/rt/mod.rs:136-143 | The pixels come in row-major order. |
| Regions.PixelsDistinct | src/rt/mod.rs:136-143 | No pixel comes twice. |
| Regions.PixelsSplit | src/rt/mod.rs:136-143 | Rows `a..b` followed by rows `b..c` are rows `a..c`. |
| Regions.ShadesOfConcat | src/rt/mod.rs:204-207 | Collected shades of two pixel lists concatenate to the shades of the concatenated list. |
| Regions.Collect | src/rt/mod.rs:135-145 | The nested loop collects, in order, one shaded triple per pixel of the rectangle. |
| Regions.Paint | src/rt/mod.rs:209-214 | Painting fails exactly when some result pixel lies off the `width x height` canvas (where `index_mut` would panic); otherwise it defines every painted pixel and keeps every pixel the image had. |
| Regions.PaintShades | src/rt/mod.rs:209-214 | For pixels on the canvas, painting succeeds, painted pixels take the converted shade, and all other pixels are unchanged. |
| Regions.PaintRaster | src/rt/mod.rs:209-214 | Painting the shades of the whole raster succeeds, sets each raster pixel and leaves the rest unchanged. |
| Regions.PaintOffCanvasFails | src/rt/mod.rs:209-214 | If any painted pixel lies off the canvas, painting the frame fails. |
| Colors.Channel | src/main.rs:22-33 | A channel is 255 from input 1 up, 0 from input 0 down, and in between the truncation of `255 * x`. |
| Colors.Truncate | src/main.rs:29-31 | The `as u8` cast of a value in `[0, 255]` is its integer part. |
| Colors.ChannelMonotone | src/main.rs:22-33 | The conversion is monotone in each channel. |
| Colors.ToColor | src/main.rs:22-33 | Each channel is the integer part of the input component clamped to `[0, 1]` and scaled by 255. |
| Colors.VectorToColor | src/rt/mod.rs:31-40 | Each channel is the integer part of the clamped and scaled component; in particular red is 255 from 1 up and 0 from 0 down. |
| Colors.SnapshotsConvertAlike | src/rt/mod.rs:31-40 | The vector form of `to_color` (clamp, scale, cast) gives the same colour as the older per-channel form. |

## Left out

- The window, canvas, mouse state and the `canvas.render` closure are I/O. The camera is a parameter `(x, y) -> Ray`. The camera files (`src/camera.rs`, `src/rt/camera.rs`) are not part of this model.
- `rayon`'s `par_iter` is modelled as the sequential, order-preserving map it is equivalent to, so concurrency is not modelled.
- The CPU count from `num_cpus::get()` is a positive parameter.
- IEEE-754 details are not modelled: rounding, NaN, -0.0, the sign of the infinity a division by zero gives, and the saturating `as u8` cast outside `[0, 255]`. Reals stand for `f32`, and the slab parameters are extended reals without NaN.
- The numeric content of `normalize`, `sqrt`, `powi(50)` and division is abstract. Only these are assumed, each only where a lemma needs it: `sqrt(x) >= 0 && sqrt(x)^2 == x` for `x >= 0`; `powi(50)` of a positive value being non-negative (it may underflow to 0 in `f32`); exact division by a non-zero real; and `normalize(v)` scaled back by `sqrt(v . v)` being `v` for a non-zero `v`.
- The lighting vector maths (the reflection vector and its normalisation) is carried through as is, with no property of its own.
- `v.powi(2)` in the older sphere and in `dirty_intersects` is taken as `v * v`.
- `src/main.rs:116,118` calls `intersection.distance()` and `intersection.normal()`, which `src/intersection.rs` does not provide. The model uses the stored distance and the hit shape's normal at the hit point, as `src/intersection.rs:22-28` defines them.
- `src/node.rs:28` calls `self.aabb.intersects(ray)`, which the box in `src/aabb.rs` does not define. It is modelled as the slab test `intersects_bounds`.
- `src/ray.rs`, `src/rt/shape.rs` and `src/lib.rs` hold declarations and re-exports only. `Ray` is a datatype, and `Shape` is the sphere's own operations.
- `src/rt/intersection.rs` is not part of this model. Both snapshots use the `Intersection` of `src/intersection.rs`, generic over the shape.
- Render.TraceRegion requires a band with `minmax.1 <= minmax.2`. For an inverted band the source's capacity `minmax.2 - minmax.1` underflows `usize` and panics. The same holds for LegacyRender.TraceRegion and its two ranges.
- Nodes.New states tightness only for members whose corners lie within the `f32` range, where the `f32::MAX`/`f32::MIN` seeds cannot win the fold.
- Nodes.MemberHitPassesBox, Nodes.CullingKeepsEveryHit and Bounds.PointInBoxPassesSlabTest are proved only for a unit direction with no zero component. Zero components give infinite slab parameters, whose sign depends on IEEE details left out above.
- `pixel_canvas` is not part of this model. The image is a map from pixels to colours, and writing a pixel outside the `width x height` canvas fails the whole frame (Regions.Paint gives `None`). Whether a column past the width would wrap into the next row is not modelled, since every band is exactly `width` columns wide.
- Regions.Row has no row above: it is a helper whose meaning is stated by Regions.PixelsMembership, Regions.PixelsRowMajor and Regions.PixelsLength.
- Tracing.ApplyLight states the zero-unless-positive behaviour of the diffuse and specular terms through Shading.Diffuse, Shading.Specular and Shading.DarkSideContributesNothing, not in its own contract.
- Bounds.SlabTest has no contract of its own; its meaning is stated by Bounds.SlabTestMeansPairwiseOrdered and Bounds.SlabTestMeansSharedParameter.

## Findings

| source | as written | input that shows it | evidently intended | confidence | as-written member | corrected member |
|---|---|---|---|---|---|---|
| src/rt/mod.rs:190-194 | Always four bands of `height / num_cpus` rows each, so they cover rows `0..4 * (height / cpus)` | Height 600 on 8 CPUs covers only rows 0..300. On 2 CPUs the bands run to row 1200, past the raster. | The bands split rows `0..height` among the workers, whatever the CPU count | high, not executed | Render.Work (Render.WorkCoversRasterIff, Render.WorkMissesRowsOnEightCpus, Render.WorkOverrunsOnTwoCpus, Render.WorkFramePaintsIff) | Render.Bands (Render.BandsTileRaster, Render.CoveringFramePaintsRaster) |
