# Triis game-state engine in Dafny

Triis (`triis.js`) is a browser 3D falling-block game. Its engine keeps three pieces of state:

- a fixed W×H×D occupancy grid `universe`, with W = 6, H = 20 and D = 6;
- the current piece: an anchor `pos`, three offsets `rel` and a type tag 1 or 2;
- a `score`.

A cell holds 0 when empty, or the type of the piece that settled there. This project models that engine and proves what each operation does to the state:

- spawning a piece, with a reset when the game is lost;
- the placement check;
- translation;
- gravity and hard drop;
- committing a piece to the grid;
- detecting and collapsing full layers, with the rescan after a collapse;
- the six quarter-turn rotations;
- the guarded rotation that reverts when the turned piece does not fit.

The project has four modules:

- `Vectors` (`vectors.dfy`): the integer vector record, the three rotation axes and `RotateVec`.
- `Universe` (`universe.dfy`): the grid as a value. A `Grid` is a sequence of H layers, and a layer is indexed `[x][z]`, so `g[y][x][z]` is the cell at (x, y, z). This module also holds the value-level meaning of every grid operation:
  - `Fits` is the placement check.
  - `Place` writes a piece's type into a set of cells.
  - `Collapse` removes one layer.
  - `Compact` is the result of clearing every full layer: the non-full layers in their order, then one empty layer for each full one.
  - `Count` is the number of occupied cells.
  - Lemmas connect these functions to each other.
- `Pieces` (`pieces.dfy`): the piece record, the two spawn shapes, rotating all offsets, `Landing` (where a hard drop stops) and `Lock` (place the piece, then clear full layers).
- `Engine` (`engine.dfy`): class `Game`. It has the source's three pieces of state as fields: `universe` is an `array3<int>` indexed `[x, y, z]` as in the source, then `piece` and `score`. One method per source function mutates them with the source's loops.
  - A ghost field `board` always holds the array's contents as a `Grid`. The `Mirrors()` predicate states this.
  - Each method's postcondition states the new `board` in terms of the old one through the `Universe` and `Pieces` functions.
  - `Valid()` is the invariant kept between operations: the grid has its fixed size, its cells hold only 0, 1 or 2, and the piece has type 1 or 2 and three distinct offsets.
  - `Playing()` adds that the piece lies inside the grid on empty cells. The constructor, `NewTetrisPiece`, `MoveDown` and `HardDrop` always end in a playing state. `TryMove` and `RotateTetrisPiece` keep it. The inner steps `PlaceTetrisPiece`, `CollapseLayer` and `ClearFullLayers` keep only `Valid()`: once a piece is written into the grid, it no longer fits at its own cells.

The random draw `Math.random() < 0.5 ? 0 : 1` of `newTetrisPiece` becomes parameters. `t` is the draw for the piece being spawned: 0 selects the bar and any other value the L. `next` is the draw the game uses when the spawn fails, the game is reset, and a piece is spawned again. Operations that can end in a spawn take both draws.

`placeTetrisPiece` (triis.js:200-209) checks bounds only and writes over whatever is there. The game never commits a piece that does not fit, because between operations the piece fits (`Playing()`). The model follows the code: `PlaceTetrisPiece` requires only `Valid()`, and its count guarantee is conditional on the piece fitting.

## Model

| member | source | states |
|---|---|---|
| Vectors.RotateVec | triis.js:254-277 | a quarter turn keeps the coordinate along its axis and keeps x²+y²+z² |
| Vectors.RotateInverse | triis.js:254-277 | turning about an axis with a positive `dir` and then with a non-positive one, or in the other order, returns the original vector |
| Vectors.RotatePreservesDot | triis.js:254-277 | a quarter turn keeps every dot product, so it is a rotation of space and not only length-preserving |
| Vectors.RotateFourTimes | triis.js:254-277 | four quarter turns in one direction about one axis are the identity |
| Vectors.RotateTwice | triis.js:254-277 | two quarter turns in one direction negate the two coordinates off the axis |
| Universe.EmptyGrid | triis.js:103-114 | the reset grid has H layers of W×D cells, every layer empty and every value in {0, 1, 2} |
| Universe.FitsCells | triis.js:156-170 | the placement check holds exactly when every absolute cell of the piece is inside the grid and empty, in both directions |
| Universe.LayerCounts | triis.js:214-222 | a full layer holds W×D occupied cells; the empty layer holds none and is not full |
| Universe.CollapseEffect | triis.js:223-237 | clearing full layer y keeps the layers below y, gives each layer at height y to H-2 the old layer above it, empties the top layer, and lowers the occupied count by exactly W×D |
| Universe.CollapseCompact | triis.js:223-238 | collapsing a full layer leaves the final result of the clearing unchanged and leaves exactly one full layer fewer; this makes the rescan loop terminate with the right result |
| Universe.CollapseKeepsBelow | triis.js:223-238 | collapsing at y keeps every layer below y non-full, so the layers already scanned need no second look |
| Universe.KeepNoneFull | triis.js:241-244 | with no full layer, the clearing keeps every layer and counts no cleared layer, so the grid and the score are unchanged |
| Universe.CompactGrid | triis.js:211-245 | clearing all full layers gives a grid of the same shape, with every cell value still in {0, 1, 2} and no full layer, and with W×D fewer occupied cells per cleared layer; it is the identity when no layer is full |
| Universe.PlaceCount | triis.js:200-209 | writing a non-zero type into a set of empty, in-range cells raises the occupied count by the size of the set |
| Universe.PlaceFitsCount | triis.js:200-209 | placing a piece that fits raises the occupied count by the number of its distinct cells, which is the number of offsets when the offsets are distinct |
| Universe.CellsSize | triis.js:201-204 | a piece covers at most one cell per offset, and exactly one per offset when its offsets are distinct |
| Universe.NewCell | triis.js:201-204 | with distinct offsets, the cell of offset n is not among the cells of the earlier offsets |
| Universe.CellsSnoc | triis.js:201-207 | the cells covered by the first n+1 offsets are those of the first n plus the cell of offset n |
| Universe.PlaceAt | triis.js:200-209 | after a placement each in-range cell holds the piece's type when it is one of the piece's cells and its old value otherwise |
| Universe.PlaceValues | triis.js:206 | writing type 1 or 2 keeps every cell in {0, 1, 2} |
| Pieces.SpawnCells | triis.js:117-145 | draw 0 spawns the bar on cells (2, H-1, 2), (2, H-2, 2), (2, H-3, 2) with type 1; any other draw spawns the L on (2, H-1, 2), (2, H-2, 2), (3, H-2, 2) with type 2 |
| Pieces.SpawnFitsEmpty | triis.js:116-154 | both spawn shapes at (2, H-1, 2) fit the empty grid, so the spawn after a reset never fails again and the recursion is one level deep |
| Pieces.RotateAll | triis.js:289-291 | rotating every offset keeps the number of offsets and the length of each |
| Pieces.RotateAllInverse | triis.js:279-296 | rotating all offsets one way and then back, in either order, restores them |
| Pieces.RotateAllDistinct | triis.js:289-291 | a rotation sends distinct offsets to distinct offsets, so a turned piece still covers three cells |
| Pieces.Landing | triis.js:193-194 | a hard drop keeps the offsets, type, x and z. It ends at or below the start. The position one lower does not fit, and every height between the end and the start fits. |
| Pieces.LockEffect | triis.js:187-189 | locking a piece that fits gives a grid with no full layer and with every value in {0, 1, 2}; the occupied count rises by 3 and falls by W×D per cleared layer; with no cleared layer the result is the plain placement |
| Engine.Game.constructor | triis.js:96-97 | a new game has an empty grid, score 0 and the piece drawn with `t`, and it is playing |
| Engine.Game.InitUniverse | triis.js:103-114 | allocates a fresh W×H×D array whose every cell is 0 |
| Engine.Game.ValidPosition | triis.js:156-170 | returns true exactly when every cell `pos + rel[i]` is inside the grid and empty; it changes nothing |
| Engine.Game.TryMove | triis.js:172-183 | returns whether the translated piece fits. If it fits, the anchor moves by (dx, dy, dz); otherwise the piece is unchanged. The grid, offsets, type and score never change, and a playing state stays playing. |
| Engine.Game.WriteCells | triis.js:201-208 | each array cell becomes the piece's type when it is one of the piece's cells and keeps its old value otherwise; cells outside the grid are skipped |
| Engine.Game.PlaceTetrisPiece | triis.js:200-209 | the grid becomes the old grid with the piece's type written into exactly its in-range cells, and every other cell is unchanged. The values stay in {0, 1, 2}. When the piece fitted, the occupied count grows by exactly 3. |
| Engine.Game.IsLayerFull | triis.js:214-222 | the scan returns true exactly when every cell of layer y is occupied; it changes nothing |
| Engine.Game.ShiftLayerDown | triis.js:225-231 | layer yy takes the contents of layer yy+1 and all other cells are unchanged |
| Engine.Game.EmptyTopLayer | triis.js:232-236 | the top layer becomes all zero and all other cells are unchanged |
| Engine.Game.CollapseLayer | triis.js:223-237 | the grid becomes the old grid with layer y removed and an empty layer on top |
| Engine.Game.ClearFullLayers | triis.js:211-245 | terminates; the grid becomes the old grid with every full layer removed and the rest settled in order; no layer is full afterwards; the score rises by exactly 100 per full layer of the old grid |
| Engine.Game.NewTetrisPiece | triis.js:116-154 | if the drawn piece fits at (2, H-1, 2), it becomes the piece and the grid and score are kept; otherwise the grid is reset to empty, the score to 0, and the piece drawn with `next` is spawned; the result is always playing |
| Engine.Game.LockPiece | triis.js:187-189 | the state is the one a spawn leaves after the piece is locked into the grid with 100 points per cleared layer |
| Engine.Game.MoveDown | triis.js:185-191 | if the piece fits one cell lower, it moves down and nothing else changes; otherwise it is locked, full layers are cleared and scored, and the next piece is spawned |
| Engine.Game.DropToLanding | triis.js:194 | the descent loop ends with the piece at its landing position on the unchanged grid |
| Engine.Game.HardDrop | triis.js:193-198 | the piece is locked at its landing position, full layers are cleared and scored, and the next piece is spawned |
| Engine.Game.RotateTetrisPiece | triis.js:279-296 | the anchor and type are kept. The offsets become the element-wise rotation of the old offsets when that fits, and otherwise the old offsets. The grid never changes, and a playing state stays playing. |

## Left out

- WebGL setup, buffers, shaders and drawing (`init` apart from its two engine calls, `updateGeometry`, `render`): these are graphics API calls.
- The geometry builders (`quad`, `addCube`, `addCubeEdges`, `addBase`, `addBaseLines`, `addBoxLines`): they build floating-point vertex arrays through an external library.
- Camera matrices and mouse-drag angles: floating point and foreign library calls.
- Frame timing (`dropInterval`, `lastDropTime`, the call of `moveDown` from `render`): wall-clock time. Gravity is modelled only as explicit calls of `MoveDown`.
- The DOM score display `updatePoints` and the game-over `alert`: side effects on the page. The model tracks `score` only.
- `Math.random`: replaced by the parameters `t` and `next`, as described above.
- Keyboard dispatch in `initInput`: thin event wiring. Each key calls one of `TryMove`, `RotateTetrisPiece` or `HardDrop`, which are modelled.
- The piece colour (`color`, a `vec4` of floats): it has no effect on the game state.
- Axis strings: the source compares `axis` with `"x"` and `"y"` and treats every other string as z. The model takes the three-valued `Axis` instead, and the keyboard passes only `"x"`, `"y"` and `"z"`.
- JavaScript's dynamic typing: the grid holds integers only, and the piece's coordinates are unbounded integers. The source's numbers are doubles, but every value the engine computes is a small integer.
