# The tile-world store of a 2D sandbox game, in Dafny

This project models the tile-world store of the game's `World` class
(`src/com/kamppi/testgame/world/World.java`) and proves properties of it.
The store keeps a list of resident chunks. Each chunk has a signed
horizontal index and a 256 x 256 grid of optional tiles. The model covers:

- resolving a global column to a chunk index and a local column with
  Java's `Math.floorDiv` / `Math.floorMod` by 256;
- the tile accessors, which reject rows outside `[0, 255]`;
- placing and destroying tiles;
- the linear search that finds a resident chunk or generates and appends one;
- the streaming step of `update`: choosing the load-ahead neighbour, then
  evicting every chunk more than two chunks from the player;
- the point and box collision queries.

Files:

- `coordinates.dfy` (module `Coordinates`): the JDK floor division and
  floor modulus, and the chunk/column split.
- `tiles.dfy` (module `Tiles`): tile values. `Option` stands in for Java's
  `null` cell.
- `chunk.dfy` (module `Chunks`): the `Chunk` class, which owns an `array2`
  grid, and the generator type.
- `residents.dfy` (module `Residents`): the resident list as a value. It
  holds the search position, the eviction filter `Kept`, and the
  "one chunk per index" invariant.
- `streaming.dfy` (module `Streaming`): the player's chunk and the
  load-ahead choice, both as written and corrected.
- `collision.dfy` (module `Collision`): the cell span a box covers, and the
  scan order.
- `world.dfy` (module `Worlds`): the `World` class. `chunks` is the
  in-place list `LOADED_CHUNKS`. Every Java method in scope is a `method`;
  those that change the world carry a `modifies` clause.

A chunk that is not resident is generated the moment any accessor touches
it. So the world a caller sees is total. Resident chunks show their
grids, and every other cell shows what the generator would put there. The
ghost field `World.Shown` is that world, with one entry for every
`(x, y)`. `World.Valid()` ties it to the grids and the generator. Every
method states its effect on `Shown`. `getTile` may append a chunk, but it
never changes what the world shows. Eviction discards edits made in
evicted chunks, so their cells read as freshly generated again.

The generator is a deterministic total function of (chunk index, local
column, row). Player and collision coordinates are exact reals. Java's
`(int)` cast and the remainder operator `%` on doubles are written out
(`TruncReal`, `JavaRemainder`).

The load-ahead offset at lines 99-100 is one place where the code does not
do what it evidently means. Line 100 adds 256 to a negative offset, so the
offset is meant to land in `[0, 256)` for negative positions too, as the
player's column inside its chunk. For a negative position that is not a
whole number, the `(int)` cast rounds the remainder toward zero, that is
up. The offset then comes out one more than the player's column, and 0
instead of 256 for `x` in `(256k - 1, 256k)` with `k <= 0`
(`OffsetAsWrittenWhenNegative`). The chosen neighbour therefore differs
from the player's-column rule exactly on `(256k - 1, 256k)` and on
`(256k - 128, 256k - 127)` for `k <= 0`. At `x = -0.5` the code loads
chunk -2, far from the player, who stands next to chunk 0. At
`x = -127.5` the code loads chunk 0, where a player in the same column at
a positive position would go back. `World.Update` follows the code
(`LoadAheadAsWritten`). Its guarantees hold for either choice, since any
neighbour of the player's chunk survives eviction. `LoadAheadTarget` is
the corrected choice, with its rule proved; see "Findings".

## Model

| member | source | states |
|---|---|---|
| Coordinates.FloorDiv | src/com/kamppi/testgame/world/World.java:71 | `Math.floorDiv(a, b)` for a positive divisor is the floor quotient: `q * b <= a < q * b + b` |
| Coordinates.FloorMod | src/com/kamppi/testgame/world/World.java:72 | `Math.floorMod(a, b)` for a positive divisor lies in `[0, b)` |
| Coordinates.ChunkOf | src/com/kamppi/testgame/world/World.java:79 | the chunk of column `x` is the one whose 256 columns contain `x`: `c * 256 <= x < c * 256 + 256` |
| Coordinates.LocalX | src/com/kamppi/testgame/world/World.java:80 | the local column is in `[0, 255]` and, added to the chunk's first column, gives `x` back |
| Coordinates.TruncDiv | src/com/kamppi/testgame/world/World.java:71 | Java's `int` division truncates: for a non-negative dividend the remainder is in `[0, b)`, for a negative one it is in `(-b, 0]` |
| Coordinates.ChunkSplit | src/com/kamppi/testgame/world/World.java:71-72 | for every global column, including negative ones, chunk index * 256 + local column == x, the local column is in `[0, 255]`, and the pair is floor division and modulus by 256 |
| Coordinates.SplitInjective | src/com/kamppi/testgame/world/World.java:79-80 | two columns with the same chunk and local column are the same column, so distinct global cells never share a chunk cell |
| Coordinates.MinusOneIsLastColumnOfChunkMinusOne | src/com/kamppi/testgame/world/World.java:79-80 | column -1 is column 255 of chunk -1 |
| Chunks.Chunk.constructor | src/com/kamppi/testgame/world/World.java:46 | a new chunk has the requested index, a fresh 256 x 256 grid, and every cell empty |
| Chunks.Chunk.Generate | src/com/kamppi/testgame/world/World.java:47 | after generation every cell of the chunk holds the generator's tile for (index, column, row) |
| Chunks.Chunk.GetTile | src/com/kamppi/testgame/world/World.java:80 | returns the grid's cell at the local column and row |
| Chunks.Chunk.SetTile | src/com/kamppi/testgame/world/World.java:72 | the written cell holds the tile and every other cell of the grid keeps its tile |
| Residents.Position | src/com/kamppi/testgame/world/World.java:40-44 | the search stops at the first chunk with the index, skipping only chunks with other indices, and finds one exactly when some resident chunk has the index |
| Residents.PositionAppend | src/com/kamppi/testgame/world/World.java:46-49 | after appending, a search that hit before hits the same chunk, and a search that missed finds the appended chunk exactly when the indices match |
| Residents.AppendWellFormed | src/com/kamppi/testgame/world/World.java:46-48 | appending a chunk whose index is not resident and whose grid is its own keeps at most one chunk per index |
| Residents.Kept | src/com/kamppi/testgame/world/World.java:31-36 | the chunks the eviction loop keeps: no more than there were, and every one within two of `p` |
| Residents.KeptMembers | src/com/kamppi/testgame/world/World.java:31-36 | a chunk survives eviction around `p` exactly when it was resident and `abs(index - p) <= 2` |
| Residents.KeptConcat | src/com/kamppi/testgame/world/World.java:31-36 | eviction keeps relative order: filtering a concatenation filters each part in place |
| Residents.KeptWellFormed | src/com/kamppi/testgame/world/World.java:30-37 | eviction preserves at most one chunk per index and separate grids |
| Residents.KeptPosition | src/com/kamppi/testgame/world/World.java:30-37 | after eviction an index is resident exactly when it is within reach and was resident, and the search then finds the same chunk as before |
| Residents.EvictStep | src/com/kamppi/testgame/world/World.java:31-36 | one iterator step: the chunk under the cursor is the next unvisited one, and removing it (when out of reach) or passing it (when within reach) advances the filtered prefix by that chunk |
| Worlds.Retain | src/com/kamppi/testgame/world/World.java:31-36 | the removal loop leaves exactly the chunks within reach, in their original order |
| Worlds.Evicted | src/com/kamppi/testgame/world/World.java:30-37 | after eviction the list stays well formed, cells of chunks within reach read as before, and every other cell reads as generated |
| Worlds.EvictedView | src/com/kamppi/testgame/world/World.java:30-37 | the world after eviction agrees with the surviving chunks and the generator at every cell |
| Worlds.CellAppend | src/com/kamppi/testgame/world/World.java:46-48 | loading a chunk exactly as the generator fills it changes no cell the world shows |
| Worlds.World.constructor | src/com/kamppi/testgame/world/World.java:23-28 | a new world has no resident chunk and shows the generator's tile everywhere |
| Worlds.World.GetOrCreateChunk | src/com/kamppi/testgame/world/World.java:39-50 | returns the resident chunk with the index without changing the list, or appends exactly one fresh chunk with that index; afterwards a chunk is resident exactly when it was resident before or has the requested index; at most one chunk per index is kept; the world's tiles are unchanged; the returned chunk is the one a later search finds, so a second call returns it again |
| Worlds.World.GetTile | src/com/kamppi/testgame/world/World.java:75-81 | returns the world's tile at `(x, y)`; a row outside `[0, 255]` yields empty and leaves the list unchanged; no tile changes; the chunk is resident afterwards when the row is in range |
| Worlds.World.SetTile | src/com/kamppi/testgame/world/World.java:67-73 | for a row in range, `(x, y)` holds the tile afterwards, every other cell keeps its tile, and the chunk is resident; for a row out of range, nothing changes |
| Worlds.World.Store | src/com/kamppi/testgame/world/World.java:72 | writing a resident chunk's cell changes the world at `(x, y)` only and keeps the list |
| Worlds.World.PlaceTile | src/com/kamppi/testgame/world/World.java:52-57 | returns true exactly when the tile is non-empty and the existing cell is empty or replaceable; then the tile is written when the row is in `[0, 255]`, otherwise no tile changes; chunks may only be appended |
| Worlds.World.DestroyTile | src/com/kamppi/testgame/world/World.java:59-65 | the cell is empty afterwards and no other cell changes; an already empty cell leaves every tile as it was |
| Worlds.World.IsChunkLoaded | src/com/kamppi/testgame/world/World.java:182-187 | true exactly when some resident chunk has the index |
| Worlds.World.UnloadChunks | src/com/kamppi/testgame/world/World.java:30-37 | the list becomes exactly the chunks within two of `p` in their order, an index stays resident exactly when it is within reach and was resident, tiles within reach are unchanged, and the rest read as generated |
| Worlds.World.Update | src/com/kamppi/testgame/world/World.java:97-110 | after the streaming step the player's chunk and the code's load-ahead target are resident, every resident chunk is within two of the player's chunk, a chunk is resident exactly when it is within two of the player's chunk and was resident or is one of those two, and tiles near the player are unchanged |
| Worlds.World.BlocksAt | src/com/kamppi/testgame/world/World.java:164 | true exactly when the world's tile at the cell exists and is a full-tile collider; no tile changes |
| Worlds.World.CollisionPoint | src/com/kamppi/testgame/world/World.java:172-180 | returns `(floor x, floor y)` exactly when that cell's tile is a full-tile collider, otherwise none |
| Worlds.World.CollisionBox | src/com/kamppi/testgame/world/World.java:154-170 | a hit lies in the scanned span and blocks, and no cell before it in column-then-row order blocks; no hit means no cell of the span blocks |
| Collision.SpanStart | src/com/kamppi/testgame/world/World.java:155-156 | the first scanned cell is the cell containing the near edge: `k <= lo < k + 1` |
| Collision.SpanEnd | src/com/kamppi/testgame/world/World.java:157-160 | the last scanned cell is the cell just below the far edge: `k < lo + len <= k + 1`, so a far edge on a boundary belongs to the cell before it |
| Collision.SpanIsOverlap | src/com/kamppi/testgame/world/World.java:155-160 | for a positive extent, the scanned cells are exactly the cells overlapping `[lo, lo + len)`, so a far edge on a cell boundary adds no cell |
| Collision.UnitSpanIsOneCell | src/com/kamppi/testgame/world/World.java:157-159 | a width-1 box at an integer position scans its own column only |
| Streaming.PlayerChunk | src/com/kamppi/testgame/world/World.java:97 | the player's chunk is the one whose 256 columns contain the player's x: `256 c <= x < 256 c + 256` |
| Streaming.JavaRemainder | src/com/kamppi/testgame/world/World.java:99 | Java's `%` on doubles: the remainder has the dividend's sign, is less than 256 in magnitude, and differs from the dividend by a whole multiple of 256 |
| Streaming.OffsetAsWritten | src/com/kamppi/testgame/world/World.java:99-100 | the offset as the code computes it is in `[0, 256)` |
| Streaming.LoadAheadAsWritten | src/com/kamppi/testgame/world/World.java:101-105 | the code's load-ahead target is a neighbour of the player's chunk, one chunk before or after it |
| Streaming.TruncReal | src/com/kamppi/testgame/world/World.java:99 | the `(int)` cast truncates toward zero: the result is within one of the value, on the side of zero |
| Streaming.PlayerChunkSplit | src/com/kamppi/testgame/world/World.java:97-100 | the player's chunk is the chunk of the column the player stands in, and the normalised offset is that column's place in it, in `[0, 256)` |
| Streaming.LoadAheadTarget | src/com/kamppi/testgame/world/World.java:101-105 | the load-ahead neighbour is on the side of the nearer chunk edge: the next chunk exactly when its first column is fewer than 128 columns past the player's column, otherwise the previous chunk |
| Streaming.OffsetAsWrittenAgreesWhenNonNegative | src/com/kamppi/testgame/world/World.java:99-105 | for a non-negative position, the code's offset and load-ahead target agree with the player's local column and the corrected target |
| Streaming.AsWrittenLoadsWrongNeighbour | src/com/kamppi/testgame/world/World.java:99-105 | at x = -0.5 the player is in column 255 of chunk -1, but the code computes offset 0 and loads chunk -2, where the corrected choice is chunk 0 |
| Streaming.OffsetAsWrittenWhenNegative | src/com/kamppi/testgame/world/World.java:99-100 | for a negative position the code's offset is the column after the player's, with 256 wrapped to 0, unless the position is a whole number, where it is the player's column |
| Streaming.AsWrittenCrossesMidpointEarly | src/com/kamppi/testgame/world/World.java:99-105 | at x = -127.5 the player is in column 128 of chunk -1, but the code computes offset 129 and loads chunk 0, where the corrected choice is chunk -2 |
| Streaming.WorkedTargets | src/com/kamppi/testgame/world/World.java:101-105 | x = 300 is column 44 of chunk 1 with target 0, and x = 450 is column 194 of chunk 1 with target 2, both for the code's choice and the corrected one |

## Left out

- `render` (lines 119-146): drawing only.
- `input` (lines 115-117): forwards to the player.
- The per-tile `update` sweep (lines 84-93), `player.update()` (line 95) and `cleanEntities` (lines 112, 148-152): they call into tile, player and entity classes that are not part of this model. `Worlds.World.Update` covers lines 97-110 only.
- `WorldGenerator.generateChunk` internals (line 47): the generator is a deterministic function of (chunk index, local column, row). A generator that reads or writes other chunks through the world it is given is not modelled.
- `Tile.drop` (line 62): an effect outside the store. `DestroyTile` performs the same second `getTile` but not the drop itself.
- Tile classes: a tile is reduced to a kind, a replaceable flag and a collision classification, and every classification other than full-tile is folded into one.
- Chunk entities and `removeDeadEntities`: not part of the store.
- The player object: the streaming step takes the player's x as a parameter.
- IEEE-754 doubles: player and collision coordinates are exact reals. `Math.floor`, the `(int)` cast and `%` follow their definitions on reals, so rounding, infinities, NaN and the saturation of `(int)` at 32 bits are not captured.
- Worlds.World.CollisionBox: it returns the hit cell as an integer pair; the `Vector2d` of `Math.round` values it builds from that pair is not modelled.
- Worlds.World.CollisionPoint: it returns the hit cell as an integer pair, not a `Vector2d`.
- 32-bit `int` arithmetic: coordinates and chunk indices are unbounded integers, so overflow of `floorDiv`/`floorMod` arguments or of `playerChunkX + 1` is not modelled.
- Collision.SpanIsOverlap: it is stated for a positive extent only; for zero or negative width or height the queries still scan `SpanStart..SpanEnd`, which the methods model, but no overlap reading is claimed.
- Worlds.Retain: `Iterator.remove` on the `ArrayList` is modelled on a sequence value that the world then stores, so aliasing of the list by other holders is not captured.
- Worlds.World.GetTile: the Java method returns the shared `Tile` object; the model returns a tile value, so later mutation through that reference is not captured.
- `SeedInputBox` and `Window`: user-interface code outside the store.
- Concurrency: the store is modelled as single-threaded, as the game loop calls it.

## Findings

| source | as written | input that shows it | evidently intended | confidence | as-written member | corrected member |
|---|---|---|---|---|---|---|
| src/com/kamppi/testgame/world/World.java:99-105 | the offset is `(int)(x % 256)`, plus 256 when negative. For a negative `x` that is not a whole number the cast rounds up, so the offset is one more than the player's column, and 0 for `x` in `(256k - 1, 256k)`, `k <= 0`. The target then differs on those intervals and on `(256k - 128, 256k - 127)` | `x = -0.5`: the player stands in column 255 of chunk -1, next to chunk 0, but the offset is 0 and chunk -2 is loaded ahead. `x = -127.5`: column 128, but the offset is 129 and chunk 0 is loaded | the offset is the player's column in its chunk, `floorMod(floor(x), 256)`, as it is for non-negative positions, so chunk 0 is loaded at -0.5 and chunk -2 at -127.5 | medium for the far-neighbour case, low for the midpoint case; not executed | Streaming.AsWrittenLoadsWrongNeighbour | Streaming.LoadAheadTarget |
