# antimotion scene engine: exact rules in Dafny

antimotion draws seventeen pointer-reactive particle and field scenes on a
2-D canvas and switches between them on demand. Most of each scene is
floating-point dynamics fed by `Math.random`. Inside that code is a set of
discrete rules that can be stated exactly, and this project models and
proves them:

- **Game of Life** (`life.dfy`, module `Life`). The scene owns a 0/1 lattice
  indexed `[col][row]`, with `cols = ceil(width / 10)` and
  `rows = ceil(height / 10)`. Neighbours wrap around the edges (a torus).
  Each tick does three things:
  - it paints a wrapped 3x3 block of live cells around the pointer's cell;
  - it computes Conway's B3/S23 successor into a second buffer, reading
    only the first buffer;
  - it swaps the two buffers.

  `LifeScene` holds the two buffers as `array2<int>` fields. `Paint`,
  `CountNeighbors`, `Step` and `Update` are methods. Each method is proved
  against a specification over lattice values (`Board`): `Painted`,
  `NeighborCount`, `Successor`. The lemmas prove B3/S23, that painting is
  idempotent, and that the cell under the pointer always dies in the same
  tick. `life_patterns.dfy` checks a seeded blinker.
- **Scene manager** (`scenes.dfy`, module `Scenes`). It holds the current
  index over the 17 scenes and the published display name. `"next"` and
  `"prev"` switch with wrap-around, and every switch or resize runs `init`
  exactly once. `init` is recorded in a ghost log of scene indices. The 50 px
  swipe dead zone turns a horizontal swipe into at most one switch.
- **Trail buffers** (`trails.dfy`, module `Trails`).
  - A Flow Field particle pushes its position and drops the oldest point
    once the trail is over its `maxLength`. Any wrap clears the trail.
  - A Fractal Roots root grows toward the target until its head is within
    10 px of it. Its polyline is capped at 100 points. The clean-up filter
    at the end of the update never removes a root.
- **Edge and respawn policies** (`edges.dfy`, module `Edges`). These are
  toroidal wrap, reflective bounce, drift then bounce, the Hyperspace depth
  respawn and the Kaleidoscope symmetry count, stated over exact reals.

Some inputs come from `Math.random` or from floating-point force
computations. These are parameters of the operations:
- the Hyperspace respawn offsets;
- the side and position a root spawns at;
- the next head of each growing root;
- the velocity a Flow Field particle moves by.

The Fractal Roots target is `mouse.x || width / 2`, and it is modelled as
written. A pointer coordinate of exactly 0 counts as false, so that axis
falls back to the centre (`Trails.TargetAtLeftEdge`).

## Model

| member | source | states |
|---|---|---|
| `Edges.Wrap` | animation.js:156-159 | for `extent >= 0` the result lies in `[0, extent]`; in-range values are unchanged; below 0 goes to `extent`, above `extent` goes to 0 |
| `Edges.WrapPoint` | animation.js:789-792 | wrapping both axes yields a point inside the box, and a point already inside is unchanged |
| `Edges.WrapIdempotent` | animation.js:1135-1138 | an algebraic fact about the model, not a scene behaviour: wrapping an already wrapped coordinate changes nothing |
| `Edges.Bounce` | animation.js:63-64 | the position never changes; the velocity is negated when the position is outside `[0, extent]` and kept otherwise |
| `Edges.BounceInvolutive` | animation.js:943-944 | an algebraic fact about the model, not a scene behaviour (every bounce follows a drift): bouncing twice at the same position restores the velocity |
| `Edges.Drift` | animation.js:1175-1178 | one tick moves the position by the velocity; the velocity is negated exactly when the new position is outside `[0, extent]` and kept otherwise |
| `Edges.DriftKeepsNearBounds` | animation.js:583-586 | a drifting, bouncing coordinate stays at most one step outside `[0, extent]` and heads back in whenever it is outside |
| `Edges.DepthStep` | animation.js:1013-1018 | depth decreases by `speed`; at depth `<= 0` the star respawns at depth `width` with the given offsets; for `speed >= 0`, `width > 0` and `z <= width` the new depth lies in `(0, width]` |
| `Edges.DepthStaysInRange` | animation.js:1012-1019 | with positive speed the new depth is in `(0, width]`, even from the initial depth 0, and a star that is not respawned moves strictly closer |
| `Edges.Symmetry` | animation.js:936 | the symmetry count is at least 2; above 2 it is the floor of `x / width * 12`, and it is 2 exactly when that product is below 3 |
| `Edges.NextSymmetry` | animation.js:934-937 | the count keeps its value while the pointer is absent, and with a pointer it becomes `Symmetry` of the pointer's x |
| `Edges.SymmetryMonotonic` | animation.js:936 | the symmetry count never decreases as the pointer moves right |
| `Edges.SymmetryAtEdges` | animation.js:936 | the count is 2 at `x = 0` and 12 at `x = width` |
| `Edges.SymmetryBounded` | animation.js:936 | on the surface the count lies in `[2, 12]` |
| `Life.CellCount` | animation.js:822-823 | the number of 10 px cells is the least `n` with `n * 10 >= extent`, and is non-negative for a non-negative extent |
| `Life.PointerCell` | animation.js:848-849 | the pointer's cell `k` satisfies `10k <= coord < 10(k+1)`, and is non-negative on the surface |
| `Life.WrapIndex` | animation.js:886-887 | `(v + n) % n` lies in `[0, n)`; it is `v` for in-range `v` and `n - 1` for `v = -1` |
| `Life.WrapIndexCongruent` | animation.js:886-887 | the index one past the last (`v = n`) wraps to 0, and every wrapped index differs from `v` by a multiple of `n` |
| `Life.NeighborCount` | animation.js:882-893 | on a 0/1 lattice the eight wrapped neighbours sum to a value in `[0, 8]` |
| `Life.Rule` | animation.js:866-872 | for a 0/1 state the next state is 0/1, and it is alive exactly for a dead cell with 3 neighbours or a live cell with 2 or 3 |
| `Life.Successor` | animation.js:860-874 | the next lattice has the same shape, and each cell is computed from the old lattice alone |
| `Life.SuccessorIsB3S23` | animation.js:861-874 | on a 0/1 lattice the successor stays 0/1; birth happens iff a dead cell has exactly 3 neighbours, survival iff a live cell has 2 or 3 |
| `Life.Near` | animation.js:851-854 | the three wrapped indices around the pointer's cell are valid lattice indices |
| `Life.Painted` | animation.js:846-858 | exactly the cells `((mx+i+cols)%cols, (my+j+rows)%rows)` for `i, j` in {-1, 0, 1} become 1, every other cell keeps its value, and a 0/1 lattice stays 0/1 |
| `Life.Prepared` | animation.js:845-858 | without a pointer the lattice is untouched; painting keeps a 0/1 lattice 0/1 |
| `Life.PaintIdempotent` | animation.js:851-857 | painting the same block twice equals painting it once |
| `Life.PointerCellDies` | animation.js:845-874 | because painting comes before the generation, the cell under the pointer has 8 live neighbours and is dead after the tick |
| `Life.LifeScene.constructor` | animation.js:815-819 | a new scene has an empty, valid lattice |
| `Life.LifeScene.CreateGrid` | animation.js:829-835 | a fresh `cols` x `rows` buffer with every cell 0 |
| `Life.LifeScene.Init` | animation.js:821-827 | the lattice is sized `ceil(width/10)` x `ceil(height/10)` with two fresh, distinct buffers |
| `Life.LifeScene.CountNeighbors` | animation.js:882-893 | the loop's sum of the wrapped 3x3 block minus the centre equals `NeighborCount`, in `[0, 8]` on a 0/1 lattice; the grid is not changed |
| `Life.LifeScene.Paint` | animation.js:846-858 | the shown lattice becomes `Painted` of the old one, and the buffers stay valid |
| `Life.LifeScene.ComputeColumn` | animation.js:862-873 | column `i` of the second buffer receives the successor of the first buffer's column, and every other column is untouched |
| `Life.LifeScene.Step` | animation.js:860-879 | the new `grid` holds `Successor` of the old grid, the buffers are swapped (`nextGrid` is the old grid object with its contents), and they stay distinct and 0/1 |
| `Life.LifeScene.Update` | animation.js:845-880 | one tick paints around a present pointer first, then computes the successor of the painted lattice and swaps the buffers |
| `LifePatterns.BlinkerTurnsVertical` | animation.js:860-879 | on a 5x5 torus a horizontal blinker becomes vertical after one generation |
| `LifePatterns.BlinkerTurnsHorizontal` | animation.js:860-879 | the vertical blinker becomes horizontal again |
| `LifePatterns.BlinkerPeriodTwo` | animation.js:860-879 | the blinker returns to its start after two generations |
| `Scenes.SceneCountMatchesNames` | animation.js:1307-1325 | there are 17 scene names, one per scene |
| `Scenes.SwitchIndex` | animation.js:1328-1333 | the index stays in `[0, 17)`; `"next"` moves one forward and wraps 16 to 0; `"prev"` moves one back and wraps 0 to 16; any other direction keeps the index |
| `Scenes.PrevUndoesNext` | animation.js:1329-1333 | `"prev"` undoes `"next"`, and `"next"` undoes `"prev"` |
| `Scenes.Trace` | animation.js:1328-1336 | a sequence of switches runs `init` once per switch, always on a valid index |
| `Scenes.Final` | animation.js:1328-1333 | the index after a sequence of switches is the index of the last `init` |
| `Scenes.NextTrace` | animation.js:1329-1334 | the t-th of k `"next"` switches from `i` runs `init` on scene `(i + t + 1) % 17` |
| `Scenes.FullCycle` | animation.js:1328-1336 | 17 `"next"` switches return to the start, having run `init` on every scene |
| `Scenes.SwipeDirections` | animation.js:1359-1366 | `"next"` iff `touchEnd < touchStart - 50`, `"prev"` iff `touchEnd > touchStart + 50`, never both, and nothing iff the distance is at most 50 (50 included) |
| `Scenes.SceneManager.constructor` | animation.js:1326 | the first scene is current, its name is published, and no `init` has run yet |
| `Scenes.SceneManager.Switch` | animation.js:1328-1336 | the index becomes `SwitchIndex` of the old one; exactly one `init` runs, on the new current scene; the name shown is that scene's |
| `Scenes.SceneManager.Resize` | animation.js:1372-1378 | the viewport is replaced and `init` runs once, on the current scene only |
| `Scenes.SceneManager.HandleSwipe` | animation.js:1359-1366 | a swipe performs the switches `SwipeDirections` asks for, so at most one `init` runs; the viewport is unchanged |
| `Trails.PushCapped` | animation.js:532-533 | the trail is a suffix of the old trail plus the point; its length grows by one or stays the same once over the cap; it respects a cap it respected before; it ends with the new point when the cap is at least 1 |
| `Trails.PushCappedDropsOldest` | animation.js:1279-1282 | pushing onto a full trail drops exactly its oldest point |
| `Trails.FlowParticle.constructor` | animation.js:483-494 | a new particle has an empty trail |
| `Trails.FlowParticle.Trail` | animation.js:532-533 | the trail becomes `PushCapped` of the old trail and the current position, keeping `history.length <= maxLength` |
| `Trails.FlowParticle.WrapEdges` | animation.js:536-539 | the position is wrapped on both axes; the trail is cleared exactly when the position was outside the box |
| `Trails.FlowParticle.Advance` | animation.js:527-539 | after moving, a particle that stays inside keeps the capped trail, and any wrap leaves it empty, discarding the point just pushed |
| `Trails.SpawnPoint` | animation.js:1237-1243 | a root spawns on one of the four edges, inside the box for a draw in `[0, 1]` |
| `Trails.Target` | animation.js:1253-1254 | with no pointer the target is the centre; each pointer coordinate other than 0 is used as is; a coordinate of exactly 0 falls back to the centre on that axis |
| `Trails.TargetAtLeftEdge` | animation.js:1253 | a pointer at `x = 0` is not the target: the roots head for the vertical centre line |
| `Trails.GrowRoot` | animation.js:1256-1283 | an inactive root is unchanged; a root whose head is within 10 px of the target (`Reached`, the squared distance below 100) deactivates and does not grow; any other root grows by the capped push; a root never reactivates and keeps 1 to 100 points |
| `Trails.KeepLive` | animation.js:1286 | the filter keeps exactly the roots that are active or have points: every kept root comes from the list and passes the test, every root that passes is kept, the list never grows, and a one-root list is kept exactly when its root passes |
| `Trails.KeepLiveAppend` | animation.js:1286 | the filter works element by element and keeps the order: filtering `a + b` gives the filtered `a` followed by the filtered `b`; with the one-element case of `KeepLive` this fixes the filter uniquely |
| `Trails.KeepLiveKeepsAll` | animation.js:1285-1286 | since every root keeps 1 to 100 points, the clean-up filter removes no root |
| `Trails.Arrivals` | animation.js:1264-1267 | the number of active roots whose head is within 10 px of the target is at most the number of roots, and it is 0 exactly when no active root has arrived |
| `Trails.RootsScene.constructor` | animation.js:1224-1227 | a new scene has no roots |
| `Trails.RootsScene.SpawnRoot` | animation.js:1237-1250 | appends one active root whose trail is the single spawn point |
| `Trails.RootsScene.Init` | animation.js:1229-1235 | the scene holds exactly 20 fresh, active, one-point roots |
| `Trails.RootsScene.GrowAt` | animation.js:1256-1283 | one pass of the loop body replaces root `k` by `GrowRoot` of it and leaves the others alone; it reports an arrival exactly when an active root's head is within 10 px of the target |
| `Trails.RootsScene.Update` | animation.js:1252-1287 | every root is advanced by `GrowRoot` toward the same target; no root is removed; the result counts the delayed respawns scheduled (the roots that reached the target) |

## Left out

- Drawing: every `draw()` method and all canvas calls. They only render.
- DOM and window wiring: the listeners for pointer, keyboard, touch and
  resize, and the `requestAnimationFrame` loop. `Resize` models only "set
  the viewport, then `init` the current scene". The keyboard arrows map to
  `Switch("next")` and `Switch("prev")`.
- Force-field and geometric dynamics are not modelled, because they rest on
  `sqrt`, `atan2`, `sin`, `cos`, `pow` and floating-point accumulation.
  This covers Antigravity repulsion, Gravity, Vortex, Ripple, Galaxy, Sine
  Waves, Boids, Quantum jitter and collapse, and Neural pulse decay. The
  Flow Field velocity is a parameter of `Trails.FlowParticle.Advance`.
- Matrix rain: its drop updates live inside `draw()` and are interleaved
  with random glyph choice.
- Moire and Voronoi: Moire has no state. Voronoi's seeds drift and bounce,
  which `Edges.Drift` covers.
- `Math.random`: every draw is a parameter or is left out. In particular,
  the `init` populations of the scenes other than Life and Fractal Roots are
  not modelled.
- Life.LifeScene.Init: zero-fills both buffers instead of calling
  `randomize`, which draws each cell from `Math.random`.
- Trails.RootsScene.Update: the `setTimeout(() => this.spawnRoot(), 100)`
  respawn is an asynchronous callback with no cancellation. Update returns
  how many were scheduled, and the spawn itself is `SpawnRoot`.
- Floating point: coordinates are exact reals, so every addition (drift,
  depth step, trail point), division (`x / width`, `extent / 10`,
  `coord / 10`, `width / 2`) and multiplication (`* 12`, `t * width`,
  `dx * dx`) is exact. IEEE double rounding is lost, including rounding
  that moves a value across a comparison or across the boundary of one of
  the three floors (`CellCount`, `PointerCell`, `Symmetry`). The roots'
  `Math.sqrt(d) < 10` test is compared as `d < 100`, which is equivalent
  over the reals.
- Life.LifeScene.Paint: requires a pointer with non-negative coordinates on
  a lattice of at least one cell. JavaScript's truncating `%` turns a
  negative index into a negative or `NaN` array index, and that path is not
  modelled.
- Edges.Symmetry: requires `width > 0`. A zero-width surface would make the
  JavaScript count `Infinity` or `NaN`.
- Life: the JavaScript lattice is an array of column arrays. The model uses
  one `array2` per buffer. `createGrid` allocates fresh columns, so the
  columns of the two buffers never alias.
- Fractal Roots roots are JavaScript objects mutated in place. The model
  holds them as values in a sequence, and no root is shared between lists.
- A four-generation glider is not proved; the blinker lemmas check a
  concrete pattern instead.
