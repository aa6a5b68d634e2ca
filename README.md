# LoadRunner tile engine, modelled in Dafny

LoadRunner is a small pygame game. Each level is a text file of tiles:

- `1` is a wall.
- `0` is floor.
- `S` is the player's start.
- `D` is a door.

The player is a 32×32 box on a grid of 40×40 tiles. It moves 3 pixels per frame with the arrow keys and cannot overlap a wall. Touching a door loads the next level. When the next level's file does not exist, the game ends.

This project models the engine under the drawing and sound code:

- **`load_map`**: reading a level's text into rows of characters (module `TileMap`).
- **Level setup in `start_level`**: the scan that rewrites the start cell to floor, collects one door rectangle per `D` cell and places the player in the last start cell (modules `TileMap` and `Game`).
- **`check_collision`**: the wall test. It scans a window of tiles clamped to the map (module `Collision`).
- **One frame of the main loop**: horizontal then vertical movement, each committed only if clear of walls, then the door check that advances the level (modules `Collision` and `Game`).

Module layout:

- `Geometry` holds `pygame.Rect` as an integer record with the strict-overlap test of `colliderect`, and the tile and player constants.
- The game's global variables become the fields of the class `Game.Game`. `start_level` and the frame step are its methods.
- Level files are a map from level number to text. A missing key stands for a missing file.
- The two `sys.exit` paths of `start_level` become a `status` field: `AllLevelsDone` and `NoStartCell`.
- `Scenarios` works through two small levels by hand.

Python's floor division `//` matches Dafny's `/` here, because every divisor in the code is positive: the tile size 40, and 2 in the centring offset.

Behaviour of the code worth noting:

- Cells outside the map are not walls. The clamp in `check_collision` ignores them, so a player who reaches the edge of the map can leave it (`Collision.OutsideNeverBlocks`).
- The scan takes the map's width from its first row. Walls in a longer row, past the first row's width, never block (`Scenarios.WallPastFirstRowIgnored`).
- `D` cells stay `D` in the grid. Only `S` is rewritten to `0`.
- Several `S` cells are accepted, and the last one in row-major order is the start.
- Ragged rows are not rejected when a level loads.
- Touching a door advances the level in the same frame. Nothing else gates it.
- In the walled 3×3 level `111 / 1S1 / 111` the player can still move. The 32-pixel box starts 4 pixels inside its 40-pixel tile, so it moves 3 pixels right before the wall stops it (`Scenarios.BoxedFirstStepRight`, `Scenarios.BoxedSecondStepRight`).

## Model

| member | source | states |
|---|---|---|
| Geometry.CollidesMeansCommonPixel | LoadRunner.py:101 | `Collides`, the model of `colliderect`, holds for boxes of positive size exactly when they share a pixel, so boxes that only meet along an edge do not collide |
| Geometry.Move | LoadRunner.py:122 | a moved box keeps its size and is displaced by exactly (dx, dy) |
| Geometry.TileRect | LoadRunner.py:100 | the rectangle of tile (row, col) is 40×40 and aligned to the grid, at column `col` and row `row` |
| TileMap.LoadMap | LoadRunner.py:47-50 | the rows of a text contain no line-break characters, and there are never more rows than characters |
| TileMap.LineEnd | LoadRunner.py:49 | the end of a line is the first line-break character (`splitlines`' set: `\n`, `\r`, vertical tab, form feed, 0x1C-0x1E, 0x85, U+2028, U+2029) at or after the start, or the end of the text |
| TileMap.BreakLength | LoadRunner.py:49 | a line break spans one character, or two exactly when it is `\r\n` |
| TileMap.LineBreakEndsRow | LoadRunner.py:49 | a break-free line ended by `\r\n` or by any single break character splits off as the first row, and the rest of the text reads on after it |
| TileMap.LoadMapJoinLines | LoadRunner.py:47-50 | text made of break-free lines, each ended by a newline, splits into exactly those lines, followed by the rows of whatever text comes after |
| TileMap.LoadMapRoundTrip | LoadRunner.py:47-50 | one row per line, and each row is exactly that line's characters in order |
| TileMap.LoadMapOneLine | LoadRunner.py:47-50 | a non-empty text without line breaks is a single row |
| TileMap.Normalize | LoadRunner.py:67-71 | the scanned grid has the same shape as the map; no cell holds `S`; every former `S` is `0`; every other cell, `D` included, is unchanged |
| TileMap.RowDoorsSpec | LoadRunner.py:68-73 | the doors of a row prefix are the rectangles of its `D` cells, each exactly once, left to right |
| TileMap.DoorsUpToSpec | LoadRunner.py:67-73 | the doors of the first n rows are the rectangles of their `D` cells, each exactly once, in row-major order |
| TileMap.DoorRectsSpec | LoadRunner.py:63-73 | every door is the 40×40 rectangle of a `D` cell, every `D` cell has its door, and the doors are strictly in row-major order, so none repeats |
| TileMap.NormalizeKeepsDoors | LoadRunner.py:67-73 | rewriting `S` to `0` changes no door: the scanned grid has the same doors as the map |
| TileMap.RowSpawnSpec | LoadRunner.py:68-70 | the start found in a row prefix is an `S` cell, and no `S` comes after it in that prefix |
| TileMap.SpawnUpToSpec | LoadRunner.py:66-70 | the start found in the first n rows is an `S` cell at or after every other `S` there in row-major order, and there is none exactly when those rows hold no `S` |
| TileMap.LastSpawnSpec | LoadRunner.py:66-78 | there is no start exactly when the map has no `S`; otherwise the start is the last `S` in row-major order |
| TileMap.ScanLevel | LoadRunner.py:63-78 | the nested scan loop yields the normalized grid, the door list of the map and its last start cell |
| TileMap.PlayerStart | LoadRunner.py:86-88 | the player's box is 32×32, lies strictly inside its start tile and is centred in it: equal margins left and right, and top and bottom |
| TileMap.PlayerStartOverlapsOnlyItsTile | LoadRunner.py:86-88 | the starting box overlaps no tile but its own |
| Collision.ScanWindow | LoadRunner.py:92-95 | the scan window lies within the map: rows in [0, rows), columns in [0, first-row width) |
| Collision.OverlapTileBounds | LoadRunner.py:92-95 | floor-dividing an interval's ends by 40, and widening the end by one, covers every tile the interval overlaps |
| Collision.WindowCoversOverlaps | LoadRunner.py:92-103 | every `1` tile within the first row's width that the box overlaps lies inside the clamped, widened scan window |
| Collision.CheckCollision | LoadRunner.py:91-103 | the scan reports a hit exactly when the rectangle of some `1` tile, in a map row and within the first row's width, strictly overlaps the box |
| Collision.OutsideNeverBlocks | LoadRunner.py:92-95 | a box entirely above, left of, below the last row of, or right of the first row's width of the map never hits a wall |
| Collision.Resolve | LoadRunner.py:121-129 | each axis moves by its full displacement or not at all, and a box clear of walls before the frame is clear after it |
| Collision.ResolveAxisOrder | LoadRunner.py:121-129 | for any frame starting clear of walls, with one key, two or none held: x is committed exactly when the horizontally moved box is clear; y exactly when the box at the new x, moved vertically, is clear |
| Collision.NoWallsMoveFreely | LoadRunner.py:121-129 | on a map without walls the whole displacement is committed |
| Collision.ResolveIdle | LoadRunner.py:118-129 | with no keys held the player stays put |
| Game.AxisIntent | LoadRunner.py:118-119 | each axis's intent is -1, 0 or 1; it is 0 exactly when both or neither key is held, and 1 exactly when only the positive key is held |
| Game.DoorTouchedMeansDoorTile | LoadRunner.py:132-133 | `DoorTouched`, the door test, holds on a map's door list exactly when the box overlaps the tile of one of its `D` cells |
| Game.StartIsClear | LoadRunner.py:86-88 | a player placed on a non-wall start cell overlaps no wall |
| Game.Game.constructor | LoadRunner.py:106-107 | the game starts at level 1, set up as level 1's file dictates, with the state invariant holding |
| Game.Game.StartLevel | LoadRunner.py:53-88 | for a missing file: every level is done and the map and doors are unchanged; otherwise the map is the scanned grid and the doors are its `D` rectangles; then the game either stops for lack of a start cell or plays with the player centred in the last `S` tile; the level number is unchanged |
| Game.Game.Step | LoadRunner.py:116-137 | the player moves as `Resolve` says; the level advances by exactly one, and the next level is set up, exactly when the moved box touches a door; otherwise map, doors, level and status are unchanged; the player never overlaps a wall while playing |
| Scenarios.BoxedLoads | LoadRunner.py:47-50 | the walled 3×3 level reads as three rows `111`, `1S1`, `111` |
| Scenarios.BoxedStart | LoadRunner.py:66-71 | its start is row 1, column 1 |
| Scenarios.BoxedScanned | LoadRunner.py:67-71 | its scanned grid is `111`, `101`, `111` |
| Scenarios.BoxedFirstStepRight | LoadRunner.py:121-124 | from the start box (44, 44) a frame to the right reaches (47, 44) |
| Scenarios.BoxedSecondStepRight | LoadRunner.py:121-124 | from (47, 44) the wall at column 2 blocks a further step right |
| Scenarios.DoorLevelScanned | LoadRunner.py:47-73 | the level `SD` reads as one row, starts at (0, 0), scans to `0D` and has one door at (40, 0) |
| Scenarios.OneDoorTouched | LoadRunner.py:132-133 | with one door, touching the door list means overlapping that door |
| Scenarios.DoorFirstFrame | LoadRunner.py:121-133 | in level `SD` the first frame to the right stops the box at x = 7, not touching the door |
| Scenarios.WallPastFirstRowIgnored | LoadRunner.py:93 | in the map `0 / 01` the box (45, 45) overlaps the `1` at row 1, column 1, yet hits no wall, because that column lies past the first row's width |
| Scenarios.DoorSecondFrame | LoadRunner.py:121-133 | the second frame reaches x = 10, which touches the door |

## Left out

- Window setup, captions and the display size derived from the map (lines 5, 18, 80-84): display I/O.
- Loading and drawing textures, the music and `door_sound.play()` (lines 21-44, 134): asset and audio calls.
- The rendering block and the frame clock (lines 139-157): drawing and wall-clock timing only.
- Reading files: a level's text is given as a map from level number to string. `os.path.exists` becomes key presence. Text decoding is not modelled. Text-mode newline translation is not modelled either, and it changes nothing, because `splitlines` already breaks at `\r` and `\r\n`.
- The `print` and `sys.exit` calls of `start_level` are not modelled as process exit. They become `status` values, after which the model takes no further step. The `QUIT` event (lines 111-114) ends the process and is not modelled.
- `pygame.key.get_pressed`: `Game.Game.Step` takes the four arrow keys as booleans.
- `pygame.Rect` stores C integers, and `colliderect` treats zero-sized rectangles specially. Neither is modelled. All rectangles here are 32 or 40 pixels wide, and coordinates are unbounded integers.
- Collision.CheckCollision: requires a non-empty map with no row shorter than the first. The source raises `IndexError` only when the scan window actually reaches a missing cell of a shorter row, so the model demands slightly more than the source.
- Game.Game.Step: requires the same of the current map, for the same reason.
