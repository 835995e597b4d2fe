# Ray tracer control logic in Dafny

This project models the discrete control logic of the browser ray tracer in `src/main.ts`. It covers five pieces:

- **Scheduler.** `settings.render` and its `renderChunk` closure move a block cursor over the canvas in 32 by 32 blocks.
- **Raster.** `rayTracer` paints one block column by column. Each pixel's colour is built from a grid of sub-rays.
- **Tracer and Selection.** `pixelColor` picks the nearest hit with two running-minimum loops. It then shades the hit flat or with Phong, and recurses once per mirror bounce.
- **Sphere.** `sphereIntersection` is the analytic ray/sphere test.
- **Shading.** `phongIllumination` computes the diffuse and specular terms and runs the shadow loop with its early `break`.

The render `Settings` of `src/helper.ts` are a datatype passed as a parameter (module `Config`).

Colours and vectors are exact `real`s (module `Vectors`). The services the engine calls but whose code is not modelled are fields of the `Env` value (module `Scene`), as functions:

- three.js's triangle raycaster, whole scene and one object;
- `Raycaster.setFromCamera`;
- `Math.sqrt` and `Math.pow`.

Lemmas that need square roots assume only that the function passed is one (`Vectors.IsSqrt`).

The imperative code keeps its form:

- the loops of `pixelColor`, `phongIllumination`, `rayTracer` and `renderChunk` are `while` loops;
- the canvas widget is a class `Raster.Canvas` whose pixel map `SetPixel` updates.

Each method is proved against a specification function:

| Method | Specification |
|---|---|
| `Selection.SelectNearest` | `Selection.Nearest` |
| `Shading.InShadow` | `Shading.Shadowed` |
| `Tracer.PixelColor` | `Tracer.TracedColor` |
| `Raster.ShadePixel` | `Raster.PixelValue` |
| `Raster.RayTracer` | `Raster.PaintAll` |
| `Scheduler.Render` | `Scheduler.Run` |

The lemmas then state what those functions mean: first of the closest, coverage, order, exactly-once writes, the mean of the sub-rays, and non-negative colour.

The raster methods take a ghost parameter `shade` together with the fact `Raster.Traces(s, env, shade)`. This fact says `shade` is the tracer's colour function at depth `maxDepth`, and `Raster.TracerTraces` shows such a function exists. The raster and scheduler contracts are stated through `shade`, so the specification of a pixel does not unfold the whole tracer.

## Model

| member | source | states |
|---|---|---|
| Config.Defaults | src/helper.ts:10-22 | A fresh `Settings` is 256 by 256 with every toggle off, `maxDepth` 2 and `subsamples` 1. These lie inside the GUI slider ranges `maxDepth` 0..10 and `subsamples` 1..4. |
| Sphere.SphereIntersection | src/main.ts:48-75 | The test returns a result, rather than the early "no hit", exactly when the object is a sphere mesh and the centre's projection `tca` on the ray is not negative. |
| Sphere.SphereHitTest | src/main.ts:59-69 | When tested, `check` holds iff `0 <= radius` and the squared perpendicular distance from the centre to the ray is at most `radius²`. On a hit, `0 <= t0 <= t1`. |
| Sphere.UnitDirection | src/main.ts:53-72 | With a unit direction, `tca` is `d · (c - o)`. The far point is `o + t1·d` and the near point `o + t0·d`. When `t0 > 0` it is `tca - thc`. |
| Sphere.PerpendicularRoot | src/main.ts:61-62 | `y` is non-negative and `y²` is the squared perpendicular distance. |
| Sphere.CheckAgainstSquares | src/main.ts:65 | Comparing `y <= radius` is the same as comparing squares, with a non-negative radius. |
| Sphere.HalfChordSquare | src/main.ts:67 | For `0 <= y <= radius`, `thc >= 0` and `thc² + y² = radius²`. |
| Sphere.ChordOrdered | src/main.ts:68-69 | With `tca, thc >= 0`, the clamped near root and the far root satisfy `0 <= t0 <= t1`. |
| Sphere.PerpendicularNonNegative | src/main.ts:61-62 | The squared perpendicular distance is not negative. |
| Sphere.HitChord | src/main.ts:59-67 | On a hit with a unit direction, `thc²` plus the squared distance from the centre to `P` is `radius²`. |
| Sphere.FarPointOnSphere | src/main.ts:67-72 | On a hit with a unit direction, the far point lies on the sphere. |
| Sphere.NearPointOnSphere | src/main.ts:67-71 | On a hit with a unit direction and `t0 > 0`, the near point lies on the sphere. |
| Sphere.CentreOnRay | src/main.ts:53-62 | For a centre on the ray at distance `k`, `tca = k` and the perpendicular distance is 0. |
| Sphere.HalfChordAtCentre | src/main.ts:67 | At perpendicular distance 0, the half chord is the radius. |
| Sphere.ThroughCentre | src/main.ts:53-69 | A ray through the centre, at distance `k >= 0` from the origin, hits with `t0 = max(k - r, 0)` and `t1 = k + r`. For `k = 5` and `r = 1` that gives `t0 = 4` and `t1 = 6`. |
| Sphere.CentreDistanceNotBelowNearHit | src/main.ts:111-117 | The origin-to-centre distance an analytic sphere competes with is never below its near root `t0`. |
| Selection.TriangleSelectionNotSphere | src/main.ts:89-104 | A selection that comes from the raycaster's hits is a mesh, and with `correctSpheres` never a sphere mesh. It carries that hit's mesh, distance, point and normal. |
| Selection.SphereSelectionOnSphere | src/main.ts:108-119 | A selection that comes from the analytic test happens only with `correctSpheres`, for a sphere child the test hits. It competes with the origin-to-centre distance, which is never below `t0`. Its point is the near chord point, which lies on the sphere when `t0 > 0` (unit direction). |
| Selection.FoldNone | src/main.ts:83-124 | The running minimum selects nothing iff nothing is offered. |
| Selection.FoldSome | src/main.ts:97-118 | A selection is an offer of least distance, and every earlier offer is strictly farther. |
| Selection.FoldFirstMinimum | src/main.ts:97-118 | Conversely, the first offer of least distance is what the running minimum with strict `<` selects. |
| Selection.NearestIsFirstOfClosest | src/main.ts:89-124 | `pixelColor`'s object is `None` iff neither loop offers anything. Otherwise it is the first closest offer over the triangle hits followed by the analytic spheres. |
| Selection.NearestTriangle | src/main.ts:89-105 | The loop over the raycaster hits computes the running minimum of their offers. |
| Selection.NearestSphere | src/main.ts:108-124 | The loop over the scene's sphere meshes continues the running minimum from where the first loop stopped. |
| Selection.SelectNearest | src/main.ts:81-124 | The two loops together select `Nearest`, the fold over all offers. |
| Shading.Attenuation | src/main.ts:220-221 | The attenuation, one over the squared distance to the light, is never negative. |
| Shading.CosTheta | src/main.ts:226 | `cosTheta` is at least 0 and at least `normal · dir`, and equals the dot product when that is positive. |
| Shading.Front | src/main.ts:242 | `front` is never negative. |
| Shading.Specular | src/main.ts:238-259 | The specular term is black whenever the light is not in front (`front` is 0). |
| Shading.InShadow | src/main.ts:262-290 | The flag loop with `break` returns true iff some scene child other than the shaded mesh occludes. An analytic sphere occludes when its near point is closer than the light and farther than `epsilon`. Anything else occludes when the raycaster's first hit on it is closer than the light. |
| Shading.PhongIllumination | src/main.ts:214-302 | The result is black when shadows are on and the light is occluded, and `Ld + Ls` added onto black otherwise. |
| Shading.PhongNonNegative | src/main.ts:214-301 | A light and material with non-negative colours, intensity and shininess never give a negative channel. |
| Shading.ShadowedByOthers | src/main.ts:270-290 | When no two scene children share an id, the `obj != mesh` test skips exactly the shaded mesh: the mesh of child `j` is in shadow iff some child other than `j` blocks the light. |
| Shading.ShadowedMonotonic | src/main.ts:270-290 | Adding scene children can only put a point into shadow, never take it out. |
| Tracer.Calls | src/main.ts:143-153 | One call of `pixelColor` makes at least 1 and at most `max(depth, 0) + 1` invocations, itself included. |
| Tracer.EnoughBudgetCalls | src/main.ts:143-153 | When the mirror recursion stops before the depth budget runs out, any larger budget makes the same number of `pixelColor` invocations. |
| Tracer.SingleCallAnyBudget | src/main.ts:143-153 | When `pixelColor` makes a single invocation at a positive depth, any larger depth gives the same colour. |
| Tracer.FlatIgnoresLightsAndDepth | src/main.ts:131-164 | With Phong off the colour depends neither on the lights nor on the depth: it is the flat material colour of the selected object, or black. |
| Tracer.OnlyFirstLight | src/main.ts:131-140 | With "all lights" off only `lights[0]` is consulted, at every level of mirror recursion: replacing `lights[1]` and `lights[2]` leaves the colour unchanged. |
| Tracer.MirrorBlendWithin | src/main.ts:143-155 | At a mirror hit with reflectivity in [0, 1], each channel of the colour lies between that of the local Phong colour and that of the colour traced along the reflected ray. |
| Tracer.DepthIrrelevantWithoutRecursion | src/main.ts:143 | With mirrors off, or with no depth left on either side, the depth does not change the colour. |
| Tracer.NearestIsProper | src/main.ts:97-118 | The selected object is always a raycaster mesh or a scene child mesh, so it carries one of the scene's materials. |
| Tracer.LocalNonNegative | src/main.ts:131-140 | The sum of the lights' Phong terms has no negative channel in a proper scene. |
| Tracer.TracedColorNonNegative | src/main.ts:77-168 | In a scene of non-negative lights and materials, with reflectivity in [0, 1], no traced colour has a negative channel at any depth. |
| Tracer.PixelColor | src/main.ts:77-168 | The recursive method returns `TracedColor`. |
| Raster.Canvas.constructor | src/main.ts:342 | A new canvas has the given size, no pixels and no writes. |
| Raster.Canvas.ChangeDimensions | src/main.ts:347 | Resizing sets the size and nothing else; the render clears the pixels with `clearCanvas` straight after. |
| Raster.Canvas.ClearCanvas | src/main.ts:349 | Clearing empties the pixels and the write log and keeps the size. |
| Raster.Canvas.SetPixel | src/main.ts:208 | Writing sets the one pixel, logs the write and changes nothing else. |
| Raster.ColumnExactlyOnce | src/main.ts:176 | The inner `y` loop visits each `y` of the column exactly once. |
| Raster.ColumnMajorExactlyOnce | src/main.ts:175-176 | The nested loops visit each pixel of the `w` by `h` block exactly once, `w·h` pixels in all, column by column. |
| Raster.NdcAsWritten | src/main.ts:194-195 | The model's device coordinates equal `(px / width)·2 - 1` and `-(py / height)·2 + 1` as written. |
| Raster.NdcInView | src/main.ts:191-195 | A point inside the canvas maps into the view square, with `x` in [-1, 1) and `y` in (-1, 1]. |
| Raster.TracerTraces | src/main.ts:199 | The tracer at depth `maxDepth` is a valid `shade` function. |
| Raster.SubRaysInsidePixel | src/main.ts:179-192 | A pixel casts exactly `subsamples²` distinct sub-rays, one per grid point, and each offset lies in [0, 1) on both axes. |
| Raster.OffsetBelowOne | src/main.ts:179-192 | The offset `sub · (1 / subsamples)` lies in [0, 1) for `0 <= sub < subsamples`. |
| Raster.MeanScale | src/main.ts:204-207 | The corrected factor times `subsamples²` is 1. |
| Raster.UniformPixelIsMean | src/main.ts:178-207 | With the corrected factor, a pixel whose sub-rays all see `c` gets `c`. |
| Raster.AsWrittenScaleIsMeanOnlyFor124 | src/main.ts:178-206 | For `subsamples >= 1`, the factor `1/2^subsamples` (skipped at 1) equals `1/subsamples²` iff `subsamples` is 1, 2 or 4. |
| Raster.PixelValueAsWrittenFor124 | src/main.ts:178-206 | For 1, 2 and 4 sub-rays per axis, the model's pixel value equals the as-written one, the sum scaled by `1/2^subsamples` (skipped at 1). |
| Raster.AsWrittenBrightensThree | src/main.ts:178-207 | At `subsamples = 3`, a uniform pixel of colour `c` gets `9/8 · c` as written. |
| Raster.ShadeSubRay | src/main.ts:191-200 | One sub-ray's colour is the tracer's colour along the camera ray through its offset point. |
| Raster.ShadeSubColumn | src/main.ts:188-202 | The inner `subY` loop adds the colours of one column of sub-rays to the running sum. |
| Raster.ShadePixel | src/main.ts:178-207 | The sub-ray loops produce `PixelValue`, the sum over the whole sub-ray grid scaled by the mean factor. |
| Raster.PaintAllEffect | src/main.ts:175-208 | After a sequence of writes, the canvas holds exactly the earlier pixels plus the written ones. Each written pixel holds its value, and the others are unchanged. |
| Raster.PaintColumn | src/main.ts:176-209 | The inner `y` loop writes the column's pixels in order, and nothing else. |
| Raster.RayTracer | src/main.ts:171-211 | `rayTracer` writes the block's pixels column by column, each exactly once and each with its value. The size is unchanged. |
| Raster.BlockPainted | src/main.ts:175-210 | After a block, the pixels are the earlier ones plus the block. Each block pixel holds its value, even beyond the canvas edge, and every other pixel is unchanged. |
| Scheduler.Run | src/main.ts:355-371 | The cursors visited start at the first one and contain at least that one: the first block always runs. |
| Scheduler.BlocksIsCeiling | src/main.ts:352-366 | The number of blocks along a side of `n >= 1` pixels is `ceil(n / 32)`. |
| Scheduler.RunFrom | src/main.ts:355-371 | From block `j` of block row `r`, the cursor runs through the rest of that row and then through every later row. |
| Scheduler.RunIsRowMajor | src/main.ts:352-371 | From the top-left corner the cursors are the grid of blocks, row by row. There are `ceil(W/32) · ceil(H/32)` blocks. |
| Scheduler.RunWithoutRows | src/main.ts:355-371 | With no rows to paint, exactly the first block runs. |
| Scheduler.GridSize | src/main.ts:355-371 | A grid of block rows holds rows × columns cursors. |
| Scheduler.GridMembers | src/main.ts:355-371 | The grid's cursors are exactly the multiples of 32 inside the block ranges. |
| Scheduler.GridRowMajor | src/main.ts:355-371 | The grid is visited left to right, then top to bottom. |
| Scheduler.PaintedArea | src/main.ts:352-371 | A render writes exactly the pixels of `[0, 32·ceil(W/32)) × [0, 32·ceil(H/32))`, which contains the whole canvas. |
| Scheduler.RenderWritesOnce | src/main.ts:346-371 | No pixel is written twice during a render. |
| Scheduler.RenderPaintsCanvas | src/main.ts:346-371 | After a render, the canvas holds exactly the painted area, each pixel with its value. |
| Scheduler.RenderChunk | src/main.ts:355-371 | One step paints its block and advances the cursor. It asks for another step iff the new `verticalChunk` is below the height. |
| Scheduler.Render | src/main.ts:346-372 | The render resizes and clears the canvas. It then writes the blocks of the cursor run in order, and leaves every written pixel holding its value. |

## Left out

- **Floating point.** The source computes in IEEE doubles. The model is exact over `real`, so rounding, NaN from `sqrt` of a negative, and overflow are not modelled.
- **Services as plain functions.** three.js's `intersectObjects`, `intersectObject`, `setFromCamera` and its triangle intersection code, `Math.sqrt` and `Math.pow` are not part of this model. They are plain functions in `Scene.Env`.
- **Face normals.** A raycaster hit without a face would keep the previous `normal` (`src/main.ts:101`). The model gives every hit a world-space normal, so `transformDirection` is not modelled.
- **The `intersectionPoint1` null check** (`src/main.ts:275`). It always passes on a tested sphere and is not a separate case.
- **Identity and scene membership.** Object identity (`obj != mesh`) is compared by an `id` field. `Shading.UniqueIds` states that no two scene children share one; `Shading.ShadowedByOthers` shows the id test then skips exactly the shaded mesh. The shading functions do not require it, so a scene with shared ids is still handled, with every child of the same id skipped. The lights are exactly the three point lights the scene is built with.
- **`setTimeout(renderChunk, 0)`.** It is modelled as the next iteration of a sequential loop. Interleaving with other events, such as a settings change during a render, is not modelled.
- **UI code.** `main`, the GUI, the widgets and `savePNG` are left out. The canvas widget is reduced to its size and a pixel map.
- **Extracted inner loops.** The inner `y` loop of `rayTracer` is `Raster.PaintColumn` and the inner `subY` loop is `Raster.ShadeSubColumn`. The two selection loops are `Selection.NearestTriangle` and `Selection.NearestSphere`. They are separate methods called from the outer code.
- **Averaging factor.** The pixel value uses the averaging factor `1/subsamples²` (see Findings), not the source's `1/2^subsamples`. The as-written factor is kept as `Raster.AsWrittenScale` and the as-written pixel value as `Raster.AsWrittenPixelValue`.
- Shading.Attenuation: the source divides by zero when the light sits exactly on the hit point, which gives infinity. The model gives 0 there, so its contract covers only the finite case.
- Raster.RayTracer: requires a non-zero canvas size. The device coordinates divide by the size, and the source would produce infinite or NaN coordinates at size 0.
- Scheduler.Render: requires a non-zero requested size for the same reason. The GUI does not bound `width` or `height`.
- Raster.ShadePixel: computes the mean of the sub-ray colours, the sum scaled by `1/subsamples²` (`Raster.PixelValue`), not the sum scaled by `1/2^subsamples` that `src/main.ts:205-206` applies (`Raster.AsWrittenPixelValue`). The two agree for 1, 2 and 4 sub-rays per axis (`Raster.PixelValueAsWrittenFor124`) and differ for 3 (`Raster.AsWrittenBrightensThree`).
- Raster.RayTracer: stores `Raster.PixelValue`, the mean, not the as-written `Raster.AsWrittenPixelValue`; see `Raster.ShadePixel` above.
- Raster.BlockPainted: states the block holds `Raster.PixelValue`, the mean, not the as-written value.
- Scheduler.Render: stores `Raster.PixelValue`, the mean, not the as-written value.
- Scheduler.RenderPaintsCanvas: states the canvas holds `Raster.PixelValue`, the mean, not the as-written value.
- Raster.Canvas.ChangeDimensions: the canvas widget is not part of this model, so what a resize does to the stored pixels is not known from the source; the model assumes it leaves them, which `Scheduler.Render` makes moot by clearing the canvas next.
- Raster.ShadePixel: out-of-range `subsamples` (0 or negative) cast no sub-rays and give black, as the loops as written do.
- **Pixel colours** are not clamped or converted to bytes; the canvas widget's conversion is not part of this model.

## Findings

| source | as written | input that shows it | evidently intended | confidence | as-written member | corrected member |
|---|---|---|---|---|---|---|
| src/main.ts:178-206 | the sum of the `subsamples²` sub-ray colours is scaled by `1 / 2^subsamples` (skipped when `subsamples` is 1) | `subsamples = 3`, which the GUI allows: 9 sub-rays of colour `c` give `9/8 · c`, a pixel brighter than all its sub-rays | the mean: scale by `1 / subsamples²` | not executed | Raster.AsWrittenBrightensThree, Raster.AsWrittenScaleIsMeanOnlyFor124, Raster.PixelValueAsWrittenFor124 | Raster.UniformPixelIsMean, Raster.MeanScale |
