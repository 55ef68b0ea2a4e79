# lb2d in Dafny

lb2d is a small JavaScript library for 2D canvas sketches, in the style of
p5.js. This project models its non-drawing core and proves properties of that
model:

- the mutable 2D `Vector` object of `lb2dVec.js`, together with its
  free-standing helpers (`addVector` … `divVector`, `dotProduct`,
  `crossProduct`, `intersect`, `minDist`). `lb2d.js` repeats the same vector
  code verbatim (lines 603-855), so it is modelled once, in module `Lb2dVec`;
- the older `Vector` of `lib2d.js` (module `Lib2d`). Its `dot` and `cross`
  read the plain `x`/`y` fields of their argument, so the argument is modelled
  as a position record (`Geometry.Point`), and its `limit` normalizes and
  scales inline;
- from `lb2d.js` (module `Lb2d`):
  - the pointer-status machine behind the mouse and touch handlers
    (`Pointer`);
  - the clamps `constrain`, `map` and `limitNum`;
  - the Perlin-noise object's state (`Perlin`): octaves, falloff and the
    random table;
  - `noiseDetail`;
  - `noiseSeed`, with its linear congruential generator (`Lcg`).

Module `Geometry` holds the value-level specification. It defines:

- points and their arithmetic;
- normalization, `setMag` and `limit` as functions (`Normalized`, `WithMag`,
  `Limited`);
- the crossing point of two segments (`Intersection`);
- the point-to-segment distance (`MinDistance`).

Every mutating method of the two vector classes is specified by one of these
functions applied to the old state. The lemmas prove what the functions mean:
unit length after normalizing, magnitude `max` after limiting, the crossing
point lying inside both segments (and the converse), and the distance being
the perpendicular distance.

Modelling choices:

- Numbers are exact reals. IEEE-754 rounding, NaN, infinities and negative
  zero are not modelled.
- `Math.sqrt` is a parameter `sqrt`. Every member whose contract depends on
  what `sqrt` returns requires `Geometry.IsSqrt(sqrt)`: `sqrt` returns the
  nonnegative square root of every nonnegative real.
- A JavaScript vector object owns a `pos` record, which its methods overwrite
  in place. The record is exported as the `pos` property, and `add`, `sub`,
  `dot` and `cross` read `v.pos` of other vectors. It is a Dafny `class`
  whose fields `x` and `y` are that record, and `Pos()` reads them as a `Geometry.Point`. Aliasing is therefore
  visible, as in `v.add(v)` or `v.sub(v)`.
- The module-level `mouseStatus` variable of `lb2d.js` is a field of the
  `Pointer` object. The closure variables `seed` and `z` of the generator are
  fields of `Lcg`.
- JavaScript's `undefined` results are modelled two ways. `intersect` returns
  `null` (a `Vector?`). `minDist` returns `Geometry.None`.
- The generator's arithmetic is done on integers. `NextIsExact` shows that
  `a * z + c` stays below 2^53, so the floating-point `%` of the source
  computes exactly this value.

## Model

| member | source | states |
|---|---|---|
| Geometry.MagSqZero | lb2dVec.js:57-59 | the squared magnitude is zero exactly for the zero vector |
| Geometry.SqrtOfSquare | lb2dVec.js:62-64 | the root of r*r is r for r >= 0, so a magnitude is determined by its square |
| Geometry.NormalizedZero | lb2dVec.js:86-91 | normalizing the zero vector leaves it unchanged (the `len != 0` guard) |
| Geometry.NormalizedUnit | lb2dVec.js:86-91 | normalizing a nonzero vector gives squared magnitude 1, and the result is the vector scaled by 1/len(p) |
| Geometry.WithMagZero | lb2dVec.js:102-105 | setMag on the zero vector gives the zero vector, whatever the magnitude |
| Geometry.WithMagOfNonzero | lb2dVec.js:102-105 | setMag(m) on a nonzero vector gives squared magnitude m*m, and magnitude m when m >= 0 |
| Geometry.LimitedMag | lb2dVec.js:94-99 | for max >= 0, limit leaves a short enough vector unchanged, otherwise gives magnitude exactly max, and never lengthens |
| Geometry.DotOrigin | lb2dVec.js:108-110 | the dot product with the zero vector is 0 |
| Geometry.DotSymmetric | lb2dVec.js:108-110 | the dot product is symmetric |
| Geometry.CrossAntisymmetric | lb2dVec.js:113-115 | the 2D cross product changes sign when its operands swap and is 0 for a vector with itself |
| Geometry.PerpOrthogonal | lb2dVec.js:151-153 | the perpendicular is orthogonal to the vector, has the same length, and its cross product with the vector is MagSq(v) |
| Geometry.Lagrange | lb2dVec.js:108-115 | MagSq(a) MagSq(p) = (a.p)^2 + (a x p)^2 |
| Geometry.PlusMinus | lb2dVec.js:201-209 | adding then subtracting the same point returns the original point |
| Geometry.CrossDecomposition | lb2dVec.js:242-258 | (d x b) a - (d x a) b = (a x b) d, the identity behind the parameters s and u of intersect |
| Geometry.IntersectionOnBothSegments | lb2dVec.js:242-258 | a point intersect returns lies at a parameter strictly between 0 and 1 on both segments, and the segments are not parallel |
| Geometry.IntersectionComplete | lb2dVec.js:242-258 | conversely, non-parallel segments that meet strictly inside both give exactly that meeting point |
| Geometry.IntersectionParallel | lb2dVec.js:249 | parallel or degenerate segments give no intersection |
| Geometry.ProjectionGuard | lb2dVec.js:270-277 | the scalar projection passes minDist's guard iff 0 < A.P <= MagSq(A) |
| Geometry.ProjectionOfZero | lb2dVec.js:273-274 | for a zero-length segment the scalar projection is 0, so the guard always rejects |
| Geometry.ProjectionOfNonzero | lb2dVec.js:273-277 | for a nonzero segment the scalar projection is (A.P)/len(A), and the guard holds iff 0 < A.P <= MagSq(A) |
| Geometry.PerpendicularDistance | lb2dVec.js:278-279 | the length of P minus its projection onto A, times len(A), equals abs(A x P) |
| Geometry.RejectionLength | lb2dVec.js:278-279 | MagSq(P - kA) MagSq(A) = MagSq(A) MagSq(P) - (A.P)^2 for the projection factor k = A.P / MagSq(A) |
| Geometry.MinDistanceMeaning | lb2dVec.js:262-282 | minDist is defined iff 0 < A.P <= MagSq(A), and then d >= 0 with d^2 MagSq(A) = (A x P)^2 (the perpendicular distance); a degenerate segment gives undefined |
| Lb2dVec.Vector.constructor | lb2dVec.js:30-32 | a new vector holds the given coordinates |
| Lb2dVec.Vector.Set | lb2dVec.js:35-38 | the position becomes (x, y) |
| Lb2dVec.Vector.Copy | lb2dVec.js:40-42 | a fresh vector at the same position |
| Lb2dVec.Vector.Div | lb2dVec.js:45-48 | the position becomes the old position divided by n |
| Lb2dVec.Vector.Mult | lb2dVec.js:51-54 | the position becomes the old position scaled by n |
| Lb2dVec.Vector.MagSq | lb2dVec.js:57-59 | the squared magnitude is nonnegative and zero exactly for the zero vector |
| Lb2dVec.Vector.Mag | lb2dVec.js:62-64 | the magnitude is nonnegative, squares to MagSq, and is zero exactly for the zero vector |
| Lb2dVec.Vector.Add | lb2dVec.js:67-70 | the position becomes old position plus v's old position (aliasing included) |
| Lb2dVec.Vector.Sub | lb2dVec.js:73-76 | the position becomes old position minus v's old position (aliasing included) |
| Lb2dVec.Vector.Dist | lb2dVec.js:79-83 | the distance is nonnegative, squares to MagSq(this - v), and is zero exactly when the positions coincide |
| Lb2dVec.Vector.Normalize | lb2dVec.js:86-91 | the new position is Normalized(old); zero stays zero, nonzero becomes unit length |
| Lb2dVec.Vector.Limit | lb2dVec.js:94-99 | the new position is Limited(old, max); for max >= 0 the result has magnitude max if it was longer, else is unchanged |
| Lb2dVec.Vector.SetMag | lb2dVec.js:102-105 | the new position is WithMag(old, magnitude); zero stays zero |
| Lb2dVec.Vector.Perp | lb2dVec.js:151-153 | a fresh vector (-y, x), orthogonal to this one and of the same length |
| Lb2dVec.DotSymmetric | lb2dVec.js:108-110 | u.dot(v) == v.dot(u) |
| Lb2dVec.CrossAntisymmetric | lb2dVec.js:113-115 | u.cross(v) == -v.cross(u) and u.cross(u) == 0 |
| Lb2dVec.AddVector | lb2dVec.js:201-203 | a fresh vector at the sum of the positions |
| Lb2dVec.SubVector | lb2dVec.js:207-209 | a fresh vector at the difference of the positions |
| Lb2dVec.MultVector | lb2dVec.js:213-217 | a fresh vector at v's position scaled by n |
| Lb2dVec.DivVector | lb2dVec.js:221-225 | a fresh vector at v's position divided by n |
| Lb2dVec.DotProduct | lb2dVec.js:229-231 | dotProduct(v1, v2) equals v2.dot(v1): the order does not matter |
| Lb2dVec.CrossProduct | lb2dVec.js:235-237 | crossProduct(v1, v2) equals -v2.cross(v1) |
| Lb2dVec.AddSubVectorRoundTrip | lb2dVec.js:201-209 | subVector(addVector(a, b), b) is at a's position |
| Lb2dVec.AddThenSub | lb2dVec.js:67-76 | u.add(v); u.sub(v) restores u and leaves v alone when v is another object; with v == u it ends at the origin |
| Lb2dVec.Intersect | lb2dVec.js:242-258 | returns null exactly when Intersection is None, otherwise a fresh vector at the crossing point |
| Lb2dVec.MinDist | lb2dVec.js:262-282 | the result, computed with in-place normalize and mult on scratch vectors, equals MinDistance |
| Lb2dVec.CopyDemo | main.js:7-16 | the copies in main.js are independent: distances 100, 100 and 0 |
| Lib2d.Vector.constructor | lib2d.js:17-19 | a new vector holds the given coordinates |
| Lib2d.Vector.Copy | lib2d.js:21-23 | a fresh vector at the same position |
| Lib2d.Vector.MagSq | lib2d.js:25-27 | the squared magnitude is nonnegative and zero exactly for the zero vector |
| Lib2d.Vector.Div | lib2d.js:32-35 | the position becomes the old position divided by n |
| Lib2d.Vector.Mult | lib2d.js:37-40 | the position becomes the old position scaled by n |
| Lib2d.Vector.Mag | lib2d.js:42-44 | the magnitude is nonnegative, squares to MagSq, and is zero exactly for the zero vector |
| Lib2d.Vector.Set | lib2d.js:46-49 | the position becomes (x, y) |
| Lib2d.Vector.Add | lib2d.js:54-57 | the position becomes old position plus v's old position |
| Lib2d.Vector.Sub | lib2d.js:62-65 | the position becomes old position minus v's old position |
| Lib2d.Vector.Dist | lib2d.js:71-78 | the distance is nonnegative, squares to MagSq(this - v), and is zero exactly when the positions coincide |
| Lib2d.Vector.Normalize | lib2d.js:82-87 | the new position is Normalized(old); zero stays zero, nonzero becomes unit length |
| Lib2d.Vector.Limit | lib2d.js:92-98 | inline normalize-and-scale gives the same Limited(old, max) as setMag does; magnitude max if longer, else unchanged |
| Lib2d.Vector.SetMag | lib2d.js:103-106 | the new position is WithMag(old, magnitude); zero stays zero |
| Lib2d.DotCrossSwap | lib2d.js:112-122 | with record arguments, u.dot(v.pos) == v.dot(u.pos) and u.cross(v.pos) == -v.cross(u.pos): dot is symmetric and cross antisymmetric |
| Lib2d.Vector.Perp | lib2d.js:172-174 | a fresh vector (-y, x), orthogonal to this one and of the same length |
| Lib2d.DotCrossSelf | lib2d.js:112-122 | v.dot(v.pos) is MagSq and v.cross(v.pos) is 0 |
| Lib2d.CopyIsIndependent | lib2d.js:21-23 | changing a copy leaves the original and the argument vector unchanged |
| Lib2d.AddThenSub | lib2d.js:54-65 | u.add(v); u.sub(v) restores u when v is another object; with v == u it ends at the origin |
| Lb2d.Pointer.constructor | lb2d.js:12 | the status starts at 0 (nothing pending) |
| Lb2d.Pointer.SetMouseDown | lb2d.js:74-76 | the status becomes 1 (down) |
| Lb2d.Pointer.SetMouseUp | lb2d.js:79-81 | the status becomes 2 (released) |
| Lb2d.Pointer.SetTouchDown | lb2d.js:95-98 | the status becomes 1 (down) |
| Lb2d.Pointer.SetTouchUp | lb2d.js:101-103 | the status becomes 2 (released) |
| Lb2d.TouchCycle | lb2d.js:95-124 | isMouseDown is true while a touch is held and false after touchend; isMouseUp reports nothing while held and the release once after touchend |
| Lb2d.Pointer.IsMouseUp | lb2d.js:117-124 | true exactly when a release was pending; it then clears the status to 0, otherwise leaves it |
| Lb2d.PollMouseUpTwice | lb2d.js:117-124 | a release is reported once: a second consecutive poll is always false, and a held pointer stays down |
| Lb2d.ReleaseReportedOnce | lb2d.js:79-81 | after mouseup the first poll is true, the second false, and the status is idle |
| Lb2d.Constrain | lb2d.js:537-539 | for min <= max the result lies in [min, max], is value when in range and the nearer bound otherwise; for min > max it is max |
| Lb2d.Map | lb2d.js:549-556 | the result lies between start2 and stop2 whichever way round they are, and is the linear rescaling when that lies in range |
| Lb2d.MapEndpoints | lb2d.js:549-556 | start1 maps to start2 and stop1 maps to stop2 |
| Lb2d.LimitNum | lb2d.js:562-569 | for limit >= 0, abs(r) = min(abs(number), limit), r < 0 iff number < 0 and limit > 0, and number is kept when in range |
| Lb2d.ToUint32 | lb2d.js:495 | `>>> 0`: a value in [0, 2^32) congruent to the truncated input modulo 2^32, equal to it for integers in range |
| Lb2d.NextIsExact | lb2d.js:502 | a*z + c stays below 2^53 and the step is its remainder modulo 2^32 |
| Lb2d.Output | lb2d.js:505 | z / m lies in [0, 1) |
| Lb2d.Values | lb2d.js:500-506 | the first n outputs of rand(), a sequence of length n |
| Lb2d.ValuesInUnit | lb2d.js:500-506 | the i-th value is the output of the (i+1)-th state and lies in [0, 1) |
| Lb2d.ValuesPrefix | lb2d.js:500-506 | the first m values do not depend on how many more follow |
| Lb2d.Lcg.constructor | lb2d.js:490 | a new generator is not seeded |
| Lb2d.Lcg.SetSeed | lb2d.js:492-496 | seed and state both become `val >>> 0` |
| Lb2d.SeedSurvivesRand | lb2d.js:492-506 | getSeed returns `val >>> 0` after setSeed(val) and any number of rand() calls, which yield Values(val >>> 0, n) |
| Lb2d.Lcg.Rand | lb2d.js:500-506 | the state steps to (a z + c) mod m, the seed is kept, and the result is z / m in [0, 1) |
| Lb2d.SameSeedSameSequence | lb2d.js:481-510 | two generators given the same seed produce the same sequence, namely Values(seed >>> 0, n) |
| Lb2d.Perlin.constructor | lb2d.js:373-380 | octaves 4, falloff 0.5, no table yet |
| Lb2d.Perlin.NoiseDetail | lb2d.js:467-474 | each setting changes only when its argument is positive; the table is untouched |
| Lb2d.Perlin.NoiseSeed | lb2d.js:478-515 | a fresh table of PERLIN_SIZE + 1 = 4096 entries, equal to the first 4096 generator values for `seed >>> 0`, each in [0, 1); the other settings are kept |
| Lb2d.Fill | lb2d.js:511-514 | entry i of the table receives the (i+1)-th value of the generator, and the generator ends in the state after that many steps |
| Lb2d.NoiseSeedDeterministic | lb2d.js:478-515 | seeding twice with the same value gives the same table |

## Left out

- Canvas, DOM and console I/O: `init`, drawing, text, colours, `createP` and the animation loop. They have no logical content beyond the calls they make.
- `updMousePos` and `updTouchPos`: the mouse and touch coordinates come from browser events. `SetTouchDown` models only the status change.
- `heading`, `rotate`, `rotateMatrix`, `angleBetween` and `fromAngle`: they need trigonometry (`Math.atan2`, `cos`, `sin`, `acos`), which exact reals do not provide.
- `VectorRandom2D`, `random`, and `setSeed` called without a value (which falls back to `Math.random`): `Math.random` is outside the model. `NoiseSeed` takes a number.
- The body of `noise()`: it uses cosine interpolation, and its lazy filling of the table draws on `Math.random`. Only the state that `noiseDetail` and `noiseSeed` set is modelled.
- Floating-point behaviour: rounding, NaN, infinities and negative zero. Because of this, `Div`, `DivVector` and `Map` require a nonzero divisor. The source would produce Infinity or NaN there.
- Lb2d.LimitNum: with `limit == 0` and a negative `number`, JavaScript returns -0. On reals this is 0, so the contract states the sign only for `limit > 0`.
- Lb2d.ToUint32: `>>> 0` of NaN, an infinity or null (all give 0) is not modelled. The input is a finite real.
- Lb2d.Lcg.Rand: calling `rand` before `setSeed` gives NaN in the source. The model requires a seeded generator.
- Lb2d.Lcg.GetSeed: before `setSeed` the source returns `undefined`. The model requires a seeded generator.
- Lib2d.Vector.Dot / Lib2d.Vector.Cross: their argument is a position record. Passing a whole vector object, as the doc comment suggests, reads undefined fields in the source and gives NaN.
- Geometry.IsSqrt: `Math.sqrt` is assumed to return the exact square root. Its rounding is not modelled.
- Several modelled members are not exported by the source's public object. `magSq` is internal to both files, and `mag` and `limit` call it. `limit`, `setMag` and `perp` in lib2d.js are dead code: nothing calls them and the returned object does not list them. They are modelled as if they were exported.
- The physics code and `lib2d classes.js` are not part of this model.
