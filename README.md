# Fractal generators and their selection state, in Dafny

This project models the core of a small OpenGL fractal viewer
(`Assignment_1/453-skeleton/main.cpp`). The viewer has two parts.

- **Three recursive geometry generators.** They are the Sierpinski
  triangle, the C-shaped Lévy curve and a ternary branching tree. Each one
  clears a caller-owned CPU geometry buffer, which is a pair of parallel
  vectors of positions and colours. It then fills the buffer depth-first
  from a recursive lambda that appends with `push_back`.
- **A per-fractal iteration state machine.** A table of three configs holds
  each fractal's maximum iteration, current iteration and drawing mode. A
  global selects the fractal that is shown. The key callback selects the
  fractal with keys 1–3 and moves the iteration with UP/DOWN, clamped to
  `[0, maxIteration]`. Every change regenerates the geometry.

## Layout

- `geometry.dfy` (module `Geometry`):
  - `Vec3` and its arithmetic;
  - `Mesh`, the value a buffer holds;
  - the `CpuGeometry` class, whose two `seq` fields the generators clear
    and append to in place;
  - shared predicates for line lists.
- `sierpinski.dfy`, `levy.dfy`, `tree.dfy` (modules `Sierpinski`, `Levy`,
  `FractalTree`):
  - each generator is a recursive method that appends into a `CpuGeometry`,
    exactly as the lambda does;
  - each method is proved against a recursive specification function
    (`Triangles`, `Curve`, `Branches`) that gives the appended `Mesh`;
  - the lemmas state the promised shape of that function: sizes, colours,
    ends, connectedness, emission order and attachment.
- `fractal_state.dfy` (module `FractalState`):
  - `FractalType`, `FractalConfig` and the initial config table;
  - the pure clamping steps `IterateUp` and `IterateDown`;
  - the dispatch `FractalGeometry`;
  - the class `FractalApp`, holding `currentFractal` and the
    `fractalConfigs` array, with `UpdateFractal` and `KeyCallback`.

### Numerics

Coordinates and colours are exact reals, so the midpoint arithmetic is
exact. With z = 0, |perp| = |dir|, so the Lévy displacement
`normalize(perp) * length(dir) * 0.5` is exactly `0.5 * (-dir.y, dir.x, 0)`.
The tree's `unitDir * (length * 0.5)` is exactly `0.5 * dir`. The model
proves that z stays 0 and that no segment ever has zero length, so these
rewrites hold throughout. `Levy.Generate` requires its segment to lie in
z = 0 with a non-zero direction there. `FractalTree.Generate` requires its
branch to have a non-zero direction. These are the domains on which each
method's arithmetic equals the lambda's, and every recursive call stays
within them. The model writes cos(25.7°) and sin(25.7°) as the decimal
constants 0.9010770213 and 0.4336590846. No proved property depends on
their values beyond their not both being zero. With these decimals
cos² + sin² = 1 − 2.9·10⁻¹¹, so the rotated children are not exactly half
as long as their parent. No lemma states their length.

## Model

| member | source | states |
|---|---|---|
| Geometry.CpuGeometry.constructor | Assignment_1/453-skeleton/main.cpp:302 | a fresh CPU geometry buffer holds no vertices and no colours |
| Geometry.CpuGeometry.Clear | Assignment_1/453-skeleton/main.cpp:29-30 | afterwards both vectors are empty |
| Geometry.CpuGeometry.PushVert | Assignment_1/453-skeleton/main.cpp:39-41 | appends one position at the end, colours untouched |
| Geometry.CpuGeometry.PushCol | Assignment_1/453-skeleton/main.cpp:47-49 | appends one colour at the end, positions untouched |
| Geometry.NonDegenerateThen | Assignment_1/453-skeleton/main.cpp:133-135 | appending a line list of non-degenerate segments after an even-length one keeps every segment non-degenerate |
| Sierpinski.Generate | Assignment_1/453-skeleton/main.cpp:34-64 | the recursive lambda appends exactly `Triangles(p1, p2, p3, depth)` after what the buffer held. That is one triangle at depth 0; otherwise the corner triangles (p1,mid1,mid3), (mid1,p2,mid2), (mid3,mid2,p3), in that order |
| Sierpinski.GenerateSierpinskiTriangle | Assignment_1/453-skeleton/main.cpp:26-68 | clears the buffer, then leaves it holding exactly the fractal of the root triangle (-0.5,-0.5,0), (0.5,-0.5,0), (0,0.5,0) |
| Sierpinski.TrianglesSize | Assignment_1/453-skeleton/main.cpp:37-62 | a call at depth d appends 3·3^d positions and as many colours |
| Sierpinski.SierpinskiSize | Assignment_1/453-skeleton/main.cpp:26-67 | the whole output has equal lengths, 3·3^depth |
| Sierpinski.SierpinskiBase | Assignment_1/453-skeleton/main.cpp:37-67 | at depth 0 the output is the three root vertices in order, each coloured (0.25, 0.25, 0.5) |
| Sierpinski.SharedColoursThen | Assignment_1/453-skeleton/main.cpp:60-62 | concatenating outputs keeps every colour equal to that of its triangle's first vertex |
| Sierpinski.TrianglesColours | Assignment_1/453-skeleton/main.cpp:44-49 | every colour i is ((x+1)/2, (y+1)/2, 0.5) of the first vertex of triangle i/3 |
| Sierpinski.SierpinskiColours | Assignment_1/453-skeleton/main.cpp:44-49 | the three vertices of each triangle share one colour, that of its first vertex; every blue channel is 0.5 |
| Sierpinski.MidpointInside | Assignment_1/453-skeleton/main.cpp:55-57 | a midpoint of two points in a half-plane is in it |
| Sierpinski.TrianglesInside | Assignment_1/453-skeleton/main.cpp:55-62 | every vertex emitted for a triangle lies in each half-plane that holds its corners |
| Sierpinski.SierpinskiWithinRoot | Assignment_1/453-skeleton/main.cpp:67 | every emitted vertex lies in the closed root triangle |
| Sierpinski.CornersMissHole | Assignment_1/453-skeleton/main.cpp:60-62 | vertices of the three corner sub-triangles avoid the open central triangle |
| Sierpinski.TrianglesFlat | Assignment_1/453-skeleton/main.cpp:55-62 | with corners in the plane z = 0, every emitted vertex has z = 0 |
| Sierpinski.CornersDisjoint | Assignment_1/453-skeleton/main.cpp:55-62 | from depth 1 on, the vertices of the three corner sub-outputs are pairwise disjoint except at the edge midpoint the two corners share: (0,-0.5,0), (0.25,0,0) or (-0.25,0,0) |
| Sierpinski.SierpinskiHole | Assignment_1/453-skeleton/main.cpp:55-62 | from depth 1 on there is no recursion into the central triangle: no vertex lies strictly inside it and the root's centroid is never emitted |
| Levy.GradientIsMix | Assignment_1/453-skeleton/main.cpp:86-87 | the colour at t is glm::mix(red, green, t) = (1-t, t, 0) |
| Levy.Generate | Assignment_1/453-skeleton/main.cpp:75-107 | for a segment in z = 0 with a non-zero direction, the recursive lambda appends exactly `Curve(p1, p2, depth, t1, t2)`. That is one segment coloured mix(t1), mix(t2) at depth 0; otherwise the two halves through the folded midpoint, with the parameter split at (t1+t2)/2 |
| Levy.GenerateLevyCurve | Assignment_1/453-skeleton/main.cpp:70-112 | clears the buffer, then leaves it holding exactly the curve from (-0.5,0,0) to (0.5,0,0) over t in [0,1] |
| Levy.CurveSize | Assignment_1/453-skeleton/main.cpp:78-105 | a call at depth d appends 2·2^d positions and as many colours |
| Levy.CurveEnds | Assignment_1/453-skeleton/main.cpp:82-105 | a call's output starts at p1 coloured mix(t1) and ends at p2 coloured mix(t2) |
| Levy.LevyEnds | Assignment_1/453-skeleton/main.cpp:78-111 | 2·2^depth vertices and colours; the first vertex is (-0.5,0,0) in red and the last is (0.5,0,0) in green, at every depth |
| Levy.PolylineThen | Assignment_1/453-skeleton/main.cpp:104-105 | two connected line lists, the second starting where the first ends, concatenate to a connected one |
| Levy.CurveConnected | Assignment_1/453-skeleton/main.cpp:94-105 | the output is a connected polyline: each segment's end is the next segment's start |
| Levy.LerpLeft | Assignment_1/453-skeleton/main.cpp:101-104 | the left call's parameter points, on [t1, (t1+t2)/2], are the first half of the parent's dyadic points |
| Levy.LerpRight | Assignment_1/453-skeleton/main.cpp:101-105 | the right call's parameter points, on [(t1+t2)/2, t2], are the second half of the parent's dyadic points |
| Levy.CurveParameters | Assignment_1/453-skeleton/main.cpp:86-105 | colour i is mix(t1 + (t2-t1)·⌈i/2⌉/2^depth): each call splits its t-interval at the midpoint |
| Levy.LerpMonotone | Assignment_1/453-skeleton/main.cpp:101 | dyadic parameter points grow with their index |
| Levy.LevyGradientMonotone | Assignment_1/453-skeleton/main.cpp:86-111 | along the emission order green never decreases and red never increases; red + green = 1 and blue = 0 |
| Levy.CurveFlat | Assignment_1/453-skeleton/main.cpp:96-99 | with flat ends every vertex has z = 0, so the perpendicular is exactly as long as the direction |
| Levy.FoldDistinct | Assignment_1/453-skeleton/main.cpp:94-99 | the folded midpoint differs from either end of a non-degenerate segment |
| Levy.CurveNonDegenerate | Assignment_1/453-skeleton/main.cpp:95-99 | no emitted segment has zero length, so `normalize(perp)` is always defined |
| Levy.LevyWellFormed | Assignment_1/453-skeleton/main.cpp:111 | the whole curve is flat, non-degenerate and connected |
| FractalTree.Generate | Assignment_1/453-skeleton/main.cpp:119-152 | for a branch with a non-zero direction, the recursive lambda appends exactly `Branches(start, end, currentDepth, depth)`: this segment in its level's colour, then below `depth` the straight, +25.7° and -25.7° subtrees, in that order |
| FractalTree.ChildEnds | Assignment_1/453-skeleton/main.cpp:133-146 | the lambda's vector arithmetic gives the three children's ends: end + dir/2, and midpoint + rotated dir/2 |
| FractalTree.GenerateTree | Assignment_1/453-skeleton/main.cpp:114-154 | clears the buffer, then leaves it holding exactly the tree grown from the trunk (0,-0.8,0)→(0,-0.3,0) at level 0 |
| FractalTree.LevelsSize | Assignment_1/453-skeleton/main.cpp:131-150 | a subtree of height h has (3^(h+1) − 1)/2 branches |
| FractalTree.BranchesSize | Assignment_1/453-skeleton/main.cpp:126-150 | each branch appends two positions and two colours |
| FractalTree.LevelCounts | Assignment_1/453-skeleton/main.cpp:131-150 | exactly 3^(k−level) branches at each level k from `level` to `depth`, and none beyond: recursion stops exactly at currentDepth == depth |
| FractalTree.ColoursOfThen | Assignment_1/453-skeleton/main.cpp:148-150 | the colours of consecutive subtrees concatenate |
| FractalTree.ColoursOfAt | Assignment_1/453-skeleton/main.cpp:128-129 | colour i is the level colour of branch i/2 |
| FractalTree.BranchesColours | Assignment_1/453-skeleton/main.cpp:123-129 | the colours are, branch by branch in emission order, two copies of that branch's level colour |
| FractalTree.BranchesStart | Assignment_1/453-skeleton/main.cpp:126-129 | each call emits its own segment first, both ends in its level's colour |
| FractalTree.AttachedThen | Assignment_1/453-skeleton/main.cpp:148-150 | appending an attached subtree that grows from the first branch keeps every branch attached |
| FractalTree.AttachedChildren | Assignment_1/453-skeleton/main.cpp:141-150 | a branch followed by subtrees starting at its end and twice at its midpoint is attached |
| FractalTree.BranchesAttached | Assignment_1/453-skeleton/main.cpp:141-150 | every branch but the first starts at the end or the midpoint of an earlier branch |
| FractalTree.BranchesFlat | Assignment_1/453-skeleton/main.cpp:145-146 | every vertex stays in the plane z = 0 |
| FractalTree.ChildrenDistinct | Assignment_1/453-skeleton/main.cpp:133-146 | the three children of a non-degenerate branch are non-degenerate |
| FractalTree.BranchesNonDegenerate | Assignment_1/453-skeleton/main.cpp:133-135 | no branch has zero length, so `normalize(dir)` is always defined |
| FractalTree.NonDegenerateChildren | Assignment_1/453-skeleton/main.cpp:126-150 | a non-degenerate branch followed by non-degenerate subtrees is non-degenerate |
| FractalTree.TreeShape | Assignment_1/453-skeleton/main.cpp:126-153 | 3^(depth+1) − 1 vertices with equal colour count; the first segment is the brown trunk (0,-0.8,0)→(0,-0.3,0) |
| FractalTree.TreeTrunkOnly | Assignment_1/453-skeleton/main.cpp:131-153 | for depth ≤ 0 only the trunk is drawn |
| FractalTree.TreeColours | Assignment_1/453-skeleton/main.cpp:123-129 | a segment is brown exactly when its level is ≤ 3, otherwise forest green; there are 3^k segments at level k |
| FractalTree.TreeWellFormed | Assignment_1/453-skeleton/main.cpp:131-153 | the tree is flat, non-degenerate and attached |
| FractalState.FromIndex | Assignment_1/453-skeleton/main.cpp:159-164 | the cast from a zero-based index to `FractalTypes` inverts the enum's index |
| FractalState.IterateUp | Assignment_1/453-skeleton/main.cpp:236 | min(cur+1, max): stays within [0, max], rises by at most 1, and is unchanged exactly at the maximum; only the iteration changes |
| FractalState.IterateDown | Assignment_1/453-skeleton/main.cpp:243 | max(cur−1, 0): stays within [0, max], falls by at most 1, and is unchanged exactly at 0; only the iteration changes |
| FractalState.UpDownInverse | Assignment_1/453-skeleton/main.cpp:236-243 | away from the bounds, DOWN undoes UP and UP undoes DOWN |
| FractalState.RepeatedPresses | Assignment_1/453-skeleton/main.cpp:233-246 | n presses of UP give min(cur+n, max) and n presses of DOWN give max(cur−n, 0) |
| FractalState.GeometryFitsDrawingMode | Assignment_1/453-skeleton/main.cpp:186-210 | every generator emits one colour per vertex and a non-empty, whole number of primitives for its configured mode (triangles for Sierpinski, lines for the others) |
| FractalState.FractalApp.constructor | Assignment_1/453-skeleton/main.cpp:183-190 | the initial state is Sierpinski with configs {6,0,TRIANGLES}, {12,0,LINES}, {10,0,LINES} |
| FractalState.FractalApp.UpdateFractal | Assignment_1/453-skeleton/main.cpp:192-210 | the buffer afterwards holds the output of the generator for `currentFractal` at that config's `currentIteration` |
| FractalState.FractalApp.KeyCallback | Assignment_1/453-skeleton/main.cpp:223-252 | on a non-press nothing changes. Keys 1–3 select fractal key−KEY_1 and keep every config. UP and DOWN replace only the selected config with IterateUp or IterateDown of it. After these three, the buffer is regenerated. Any other key changes nothing. The invariant 0 ≤ cur ≤ max, with the maxima and modes fixed, is preserved |

## Left out

- The window, the render loop, the shaders, `glDrawArrays` and the sRGB
  toggles (main.cpp:277-376): GLFW/OpenGL I/O.
- The ImGui combo box and iteration slider (main.cpp:335-351): a foreign UI
  library writes into `currentFractal` and `currentIteration` directly.
  The model ASSUMES that the UI keeps the index in 0..2 and the iteration in
  [0, max]. `FractalApp.Valid()` is that assumption,
  `UpdateFractal` and `KeyCallback` require it, and `KeyCallback`
  preserves it.
- Off-range iterations. The slider is created without ImGui's
  always-clamp flag, so CTRL+Click text input can store an iteration
  outside [0, max]. The model does not capture what happens then:
  - a negative iteration makes the Sierpinski and Lévy lambdas
    (main.cpp:37, 78) recurse without reaching their base case;
  - an iteration above the maximum is drawn at that depth, and the next
    UP (main.cpp:236) pulls it back to the maximum. `IterateUp` itself is
    total and always yields at most the maximum, but `KeyCallback`
    requires `Valid()`.
- The GPU upload, `setVerts`/`setCols` (main.cpp:211-212). `UpdateFractal`
  stops at the CPU buffer.
- Console logging, the `fractalNames` table and the message for invalid
  keys (main.cpp:166-170, 231, 238, 245, 249). They have no effect on state.
- `MyCallbacks2` (main.cpp:262-275): never installed.
- `TestProject/src/main.cpp` is not part of this model. It draws a
  hard-coded triangle and has no logic of its own.
- IEEE single-precision rounding, and `glm::normalize`, `glm::length`,
  `cos` and `sin` as numerical routines. The model uses exact reals and
  the exact simplifications described under Numerics. cos(25.7°) and
  sin(25.7°) are 10-digit decimal constants.
- The GLFW codes `GLFW_PRESS` = 1, `GLFW_KEY_1` = 49, `GLFW_KEY_3` = 51,
  `GLFW_KEY_DOWN` = 264 and `GLFW_KEY_UP` = 265 come from the GLFW
  header, which is not part of this model.
- Sierpinski.Generate: takes the depth as a natural number, where the source
  takes an `int`. With a negative depth the lambda never reaches its base case.
- Sierpinski.GenerateSierpinskiTriangle: takes the depth as a natural
  number, for the same reason.
- Levy.Generate: takes the depth as a natural number, for the same reason.
- Levy.GenerateLevyCurve: takes the depth as a natural number, for the same
  reason.
- FractalState.FractalApp.UpdateFractal: passes the config's iteration as a
  natural number. This holds under `Valid()`, which the model assumes the UI
  maintains; see the off-range item above.
- FractalState.FractalApp.KeyCallback: `scancode` and `mods` are not
  parameters, because the source ignores them.
