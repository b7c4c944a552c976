/** The tile-world store of World.java: the list of resident chunks, global
    tile access through it, chunk streaming around the player, and the
    collision queries. */
module Worlds {
  import opened Coordinates
  import opened Tiles
  import opened Chunks
  import opened Residents
  import opened Streaming
  import opened Collision

  /** `after` is `before` with at most one chunk, of index `i`, appended. */
  predicate AppendedAtMost(before: seq<Chunk>, after: seq<Chunk>, i: int)
  {
    after == before ||
    (|after| == |before| + 1 && before <= after && after[|before|].index == i)
  }

  /** A map that holds every cell of the world. */
  ghost predicate Total(m: imap<(int, int), Option<Tile>>)
  {
    forall c: (int, int) :: c in m
  }

  /** The tile the generator puts at global `(x, y)`; empty outside the
      world's height. */
  function Generated(gen: Generator, x: int, y: int): Option<Tile>
  {
    if InHeight(y) then gen(ChunkOf(x), LocalX(x), y) else None
  }

  /** The tile at global `(x, y)` of a world with resident chunks `cs`:
      empty outside the world's height; the resident chunk's cell when that
      chunk is resident; otherwise what the generator puts there on loading
      it. */
  ghost function Cell(cs: seq<Chunk>, gen: Generator, x: int, y: int): Option<Tile>
    requires WellFormed(cs)
    reads set c | c in cs :: c.tiles
  {
    if !InHeight(y) then None
    else
      ChunkSplit(x);
      var p := Position(cs, ChunkOf(x));
      if p < |cs| then cs[p].tiles[LocalX(x), y] else Generated(gen, x, y)
  }

  /** The effect of eviction around `p` on a well-formed chunk list: the
      list stays well formed, exactly the indices within reach stay resident,
      cells of chunks within reach read as before, and every other cell reads
      as freshly generated. */
  lemma Evicted(cs: seq<Chunk>, gen: Generator, p: int)
    requires WellFormed(cs)
    ensures WellFormed(Kept(cs, p))
    ensures forall i :: Holds(Kept(cs, p), i) <==> InReach(i, p) && Holds(cs, i)
    ensures forall x, y :: InReach(ChunkOf(x), p) ==> Cell(Kept(cs, p), gen, x, y) == Cell(cs, gen, x, y)
    ensures forall x, y :: !InReach(ChunkOf(x), p) ==> Cell(Kept(cs, p), gen, x, y) == Generated(gen, x, y)
  {
    KeptWellFormed(cs, p);
    forall i ensures Holds(Kept(cs, p), i) <==> InReach(i, p) && Holds(cs, i) {
      KeptPosition(cs, p, i);
    }
    forall x, y
      ensures InReach(ChunkOf(x), p) ==> Cell(Kept(cs, p), gen, x, y) == Cell(cs, gen, x, y)
      ensures !InReach(ChunkOf(x), p) ==> Cell(Kept(cs, p), gen, x, y) == Generated(gen, x, y)
    {
      KeptPosition(cs, p, ChunkOf(x));
    }
  }

  /** The view after an eviction: cells of kept chunks as before, every
      other cell back to what the generator makes. */
  lemma EvictedView(cs: seq<Chunk>, gen: Generator, p: int, was: imap<(int, int), Option<Tile>>)
    returns (now: imap<(int, int), Option<Tile>>)
    requires WellFormed(cs) && Total(was)
    requires forall x, y {:trigger Cell(cs, gen, x, y)} :: was[(x, y)] == Cell(cs, gen, x, y)
    ensures WellFormed(Kept(cs, p)) && Total(now)
    ensures forall x, y {:trigger Cell(Kept(cs, p), gen, x, y)} :: now[(x, y)] == Cell(Kept(cs, p), gen, x, y)
    ensures forall x, y :: InReach(ChunkOf(x), p) ==> now[(x, y)] == was[(x, y)]
    ensures forall x, y :: !InReach(ChunkOf(x), p) ==> now[(x, y)] == Generated(gen, x, y)
  {
    Evicted(cs, gen, p);
    now := imap c: (int, int) | true ::
      if InReach(ChunkOf(c.0), p) then was[c] else Generated(gen, c.0, c.1);
    forall x, y ensures now[(x, y)] == Cell(Kept(cs, p), gen, x, y) {
      assert was[(x, y)] == Cell(cs, gen, x, y);
    }
  }

  /** Loading a chunk as the generator fills it changes no cell the world
      shows. */
  lemma CellAppend(cs: seq<Chunk>, c: Chunk, gen: Generator, x: int, y: int)
    requires WellFormed(cs) && WellFormed(cs + [c]) && !Holds(cs, c.index) && c.Valid()
    requires forall i, j :: 0 <= i < ChunkWidth && 0 <= j < WorldHeight ==> c.tiles[i, j] == gen(c.index, i, j)
    ensures Cell(cs + [c], gen, x, y) == Cell(cs, gen, x, y)
  {
    if InHeight(y) {
      ChunkSplit(x);
      PositionAppend(cs, c, ChunkOf(x));
    }
  }

  /** The eviction loop of `unloadChunks`: walks the list once, removing in
      place every chunk more than two chunks away from `p`. */
  method Retain(cs: seq<Chunk>, p: int) returns (list: seq<Chunk>)
    ensures list == Kept(cs, p)
  {
    ghost var j := 0;
    list := cs;
    var i := 0;
    while i < |list|
      invariant 0 <= j <= |cs|
      invariant list == Kept(cs[..j], p) + cs[j..]
      invariant i == |Kept(cs[..j], p)|
      decreases |list| - i
    {
      EvictStep(cs, j, p, list, i);
      if !InReach(list[i].index, p) {
        list := list[..i] + list[i + 1..];
      } else {
        i := i + 1;
      }
      j := j + 1;
    }
    assert cs[..j] == cs && cs[j..] == [];
  }

  class World {
    /** The world generator, fixed when the world is created from its seed. */
    const gen: Generator
    /** The resident chunks, in the order they were loaded (LOADED_CHUNKS). */
    var chunks: seq<Chunk>
    /** The world as the tile accessors show it: the tile at every `(x, y)`. */
    ghost var Shown: imap<(int, int), Option<Tile>>

    ghost function Grids(): set<array2<Option<Tile>>>
      reads this
    {
      set c | c in chunks :: c.tiles
    }

    /** At most one resident chunk per index, each with its own full grid,
        and `Shown` is what those chunks and the generator hold. */
    ghost predicate Valid()
      reads this, Grids()
    {
      WellFormed(chunks) && Total(Shown) &&
      forall x, y {:trigger Cell(chunks, gen, x, y)} :: Shown[(x, y)] == Cell(chunks, gen, x, y)
    }

    /** Some resident chunk has index `i`. */
    ghost predicate Resident(i: int)
      reads this
    {
      Holds(chunks, i)
    }

    constructor (gen: Generator)
      ensures Valid() && this.gen == gen && chunks == []
      ensures forall x, y :: Shown[(x, y)] == Generated(gen, x, y)
    {
      this.gen := gen;
      chunks := [];
      Shown := imap p: (int, int) | true :: Generated(gen, p.0, p.1);
    }

    /** `getOrCreateChunk`: returns the resident chunk with index `i`, or
        generates one, appends it and returns it. The world's tiles read the
        same either way. */
    method GetOrCreateChunk(i: int) returns (c: Chunk)
      requires Valid()
      modifies this
      ensures Valid() && Shown == old(Shown) && Resident(i)
      ensures c.index == i && c == chunks[Position(chunks, i)]
      ensures old(Resident(i)) ==> chunks == old(chunks)
      ensures forall j :: Resident(j) <==> old(Resident(j)) || j == i
      ensures !old(Resident(i)) ==> chunks == old(chunks) + [c] && fresh(c) && fresh(c.tiles)
      ensures fresh(Grids() - old(Grids()))
    {
      var k := 0;
      while k < |chunks|
        invariant 0 <= k <= |chunks|
        invariant forall j :: 0 <= j < k ==> chunks[j].index != i
      {
        if chunks[k].index == i {
          assert Holds(chunks, i) && Position(chunks, i) == k;
          return chunks[k];
        }
        k := k + 1;
      }
      c := new Chunk(i);
      c.Generate(gen);
      ghost var before := chunks;
      AppendWellFormed(before, c);
      chunks := chunks + [c];
      PositionAppend(before, c, i);
      forall j ensures Holds(chunks, j) <==> Holds(before, j) || j == i {
        PositionAppend(before, c, j);
      }
      forall x, y ensures Shown[(x, y)] == Cell(chunks, gen, x, y) {
        assert Shown[(x, y)] == old(Cell(chunks, gen, x, y)) == Cell(before, gen, x, y);
        CellAppend(before, c, gen, x, y);
      }
    }

    /** `getTile`: the tile the world shows at `(x, y)` (empty for a row
        outside `[0, 255]`, with nothing created), generating its chunk if
        needed. */
    method GetTile(x: int, y: int) returns (t: Option<Tile>)
      requires Valid()
      modifies this
      ensures Valid() && Shown == old(Shown)
      ensures t == Shown[(x, y)]
      ensures !InHeight(y) ==> t == None && chunks == old(chunks)
      ensures InHeight(y) ==> Resident(ChunkOf(x))
      ensures AppendedAtMost(old(chunks), chunks, ChunkOf(x))
      ensures fresh(Grids() - old(Grids()))
    {
      assert Shown[(x, y)] == Cell(chunks, gen, x, y);
      if y < 0 || y > 255 {
        return None;
      }
      ChunkSplit(x);
      var c := GetOrCreateChunk(ChunkOf(x));
      t := c.GetTile(LocalX(x), y);
      assert Shown[(x, y)] == Cell(chunks, gen, x, y);
    }

    /** `setTile`: a no-op for a row outside `[0, 255]`; otherwise the cell
        holds `t` afterwards, its chunk is resident, and no other cell
        changes. */
    method SetTile(x: int, y: int, t: Option<Tile>)
      requires Valid()
      modifies this, Grids()
      ensures Valid()
      ensures Shown == if InHeight(y) then old(Shown)[(x, y) := t] else old(Shown)
      ensures !InHeight(y) ==> chunks == old(chunks) && unchanged(Grids())
      ensures InHeight(y) ==> Resident(ChunkOf(x))
      ensures AppendedAtMost(old(chunks), chunks, ChunkOf(x))
      ensures fresh(Grids() - old(Grids()))
    {
      if y < 0 || y > 255 {
        return;
      }
      ChunkSplit(x);
      var c := GetOrCreateChunk(ChunkOf(x));
      Store(c, Position(chunks, ChunkOf(x)), x, y, t);
    }

    /** The write `chunk.setTile(localX, y, tile)` inside `setTile`, on the
        resident chunk at position `p`: the view changes at `(x, y)` only. */
    method Store(c: Chunk, ghost p: nat, x: int, y: int, t: Option<Tile>)
      requires Valid() && InHeight(y) && p < |chunks| && chunks[p] == c && c.index == ChunkOf(x)
      modifies this, c.tiles
      ensures Valid() && chunks == old(chunks)
      ensures Shown == old(Shown)[(x, y) := t]
    {
      ChunkSplit(x);
      c.SetTile(LocalX(x), y, t);
      Shown := Shown[(x, y) := t];
      forall x', y' | x' != x || y' != y
        ensures Cell(chunks, gen, x', y') == old(Cell(chunks, gen, x', y'))
      {
        if InHeight(y') {
          ChunkSplit(x');
          var p' := Position(chunks, ChunkOf(x'));
          if ChunkOf(x') == ChunkOf(x) {
            if LocalX(x') == LocalX(x) {
              SplitInjective(x, x');
            }
          } else if p' < |chunks| {
            assert chunks[p'].tiles != c.tiles by {
              if p' < p {
                assert chunks[p'].tiles != chunks[p].tiles;
              } else {
                assert chunks[p].tiles != chunks[p'].tiles;
              }
            }
          }
        }
      }
    }

    /** `placeTile`: refuses (false, nothing written) an empty tile or a cell
        holding a tile that is not replaceable; otherwise writes `t` and
        returns true. A row outside the world reads as empty, so a non-empty
        tile is accepted there and the write is ignored. */
    method PlaceTile(x: int, y: int, t: Option<Tile>) returns (ok: bool)
      requires Valid()
      modifies this, Grids()
      ensures Valid()
      ensures ok <==> t.Some? && (old(Shown)[(x, y)].None? || old(Shown)[(x, y)].value.isReplaceable)
      ensures Shown == if ok && InHeight(y) then old(Shown)[(x, y) := t] else old(Shown)
      ensures old(chunks) <= chunks
    {
      var existing := GetTile(x, y);
      var blocked := false;
      if existing.Some? {
        var again := GetTile(x, y);
        blocked := !again.value.isReplaceable;
      }
      if blocked || t.None? {
        return false;
      }
      SetTile(x, y, t);
      return true;
    }

    /** `destroyTile`: the cell is empty afterwards and no other cell changes;
        destroying an empty cell changes nothing the world shows. The tile's
        drop with the harvest level is an effect outside the store. */
    method DestroyTile(x: int, y: int, harvestLevel: int)
      requires Valid()
      modifies this, Grids()
      ensures Valid()
      ensures Shown == if InHeight(y) then old(Shown)[(x, y) := None] else old(Shown)
      ensures old(Shown)[(x, y)].None? ==> Shown == old(Shown)
      ensures old(chunks) <= chunks
    {
      var tile := GetTile(x, y);
      if tile.Some? {
        var dropping := GetTile(x, y);
        SetTile(x, y, None);
      }
    }

    /** `isChunkLoaded`: whether a chunk with index `i` is resident. */
    method IsChunkLoaded(i: int) returns (r: bool)
      ensures r <==> Resident(i)
    {
      var k := 0;
      while k < |chunks|
        invariant 0 <= k <= |chunks|
        invariant forall j :: 0 <= j < k ==> chunks[j].index != i
      {
        if chunks[k].index == i {
          return true;
        }
        k := k + 1;
      }
      return false;
    }

    /** `unloadChunks`: removes, in place, every chunk more than two chunks
        away from `p`. The survivors keep their order; the tiles of evicted
        chunks read as freshly generated again. */
    method UnloadChunks(p: int)
      requires Valid()
      modifies this
      ensures Valid()
      ensures chunks == Kept(old(chunks), p)
      ensures forall i :: Resident(i) <==> InReach(i, p) && old(Resident(i))
      ensures forall x, y :: InReach(ChunkOf(x), p) ==> Shown[(x, y)] == old(Shown)[(x, y)]
      ensures forall x, y :: !InReach(ChunkOf(x), p) ==> Shown[(x, y)] == Generated(gen, x, y)
    {
      var list := Retain(chunks, p);
      Evicted(chunks, gen, p);
      ghost var now := EvictedView(chunks, gen, p, Shown);
      chunks := list;
      Shown := now;
    }

    /** The streaming step of `update` (lines 97-110): load the player's chunk
        and the load-ahead neighbour, then evict around the player's chunk.
        Both loaded chunks survive, since each is within reach. */
    method Update(px: real)
      requires Valid()
      modifies this
      ensures Valid()
      ensures Resident(PlayerChunk(px)) && Resident(LoadAheadAsWritten(px))
      ensures forall i :: Resident(i) <==>
        InReach(i, PlayerChunk(px)) && (old(Resident(i)) || i == PlayerChunk(px) || i == LoadAheadAsWritten(px))
      ensures forall x, y :: InReach(ChunkOf(x), PlayerChunk(px)) ==> Shown[(x, y)] == old(Shown)[(x, y)]
      ensures forall x, y :: !InReach(ChunkOf(x), PlayerChunk(px)) ==> Shown[(x, y)] == Generated(gen, x, y)
    {
      var playerChunk := PlayerChunk(px);
      var loadChunk := LoadAheadAsWritten(px);
      var _ := GetOrCreateChunk(playerChunk);
      var _ := GetOrCreateChunk(loadChunk);
      UnloadChunks(playerChunk);
    }

    /** The test both collision queries make of a cell (lines 164 and 176):
        read the tile, and read it again for its collision classification. */
    method BlocksAt(cx: int, cy: int) returns (b: bool)
      requires Valid()
      modifies this
      ensures Valid() && Shown == old(Shown) && old(chunks) <= chunks
      ensures b <==> Blocks(Shown[(cx, cy)])
    {
      var t := GetTile(cx, cy);
      b := false;
      if t.Some? {
        var again := GetTile(cx, cy);
        b := again.value.collision == FullTile;
      }
    }

    /** The point collision query: the cell containing `(x, y)` when its tile
        blocks, otherwise none. */
    method CollisionPoint(x: real, y: real) returns (hit: Option<(int, int)>)
      requires Valid()
      modifies this
      ensures Valid() && Shown == old(Shown) && old(chunks) <= chunks
      ensures hit == if Blocks(Shown[(x.Floor, y.Floor)]) then Some((x.Floor, y.Floor)) else None
    {
      var xx := x.Floor;
      var yy := y.Floor;
      var blocks := BlocksAt(xx, yy);
      if blocks {
        return Some((xx, yy));
      }
      return None;
    }

    /** The box collision query over `[x, x + width) x [y, y + height)`: the
        first blocking cell in column-then-row scan order, or none. */
    method CollisionBox(x: real, y: real, width: real, height: real) returns (hit: Option<(int, int)>)
      requires Valid()
      modifies this
      ensures Valid() && Shown == old(Shown) && old(chunks) <= chunks
      ensures hit.Some? ==>
        SpanStart(x) <= hit.value.0 <= SpanEnd(x, width) &&
        SpanStart(y) <= hit.value.1 <= SpanEnd(y, height) &&
        Blocks(Shown[hit.value])
      ensures hit.Some? ==> forall cx, cy ::
        (SpanStart(x) <= cx <= SpanEnd(x, width) && SpanStart(y) <= cy <= SpanEnd(y, height) &&
         ScansBefore((cx, cy), hit.value)) ==> !Blocks(Shown[(cx, cy)])
      ensures hit.None? ==> forall cx, cy ::
        SpanStart(x) <= cx <= SpanEnd(x, width) && SpanStart(y) <= cy <= SpanEnd(y, height) ==>
        !Blocks(Shown[(cx, cy)])
    {
      var x1, y1 := SpanStart(x), SpanStart(y);
      var x2, y2 := SpanEnd(x, width), SpanEnd(y, height);
      var xTest := x1;
      while xTest <= x2
        invariant Valid() && Shown == old(Shown) && old(chunks) <= chunks
        invariant x1 <= xTest
        invariant forall cx, cy :: x1 <= cx < xTest && y1 <= cy <= y2 ==> !Blocks(Shown[(cx, cy)])
        decreases x2 - xTest
      {
        var yTest := y1;
        while yTest <= y2
          invariant Valid() && Shown == old(Shown) && old(chunks) <= chunks
          invariant forall cy :: y1 <= cy < yTest ==> !Blocks(Shown[(xTest, cy)])
          decreases y2 - yTest
        {
          var blocks := BlocksAt(xTest, yTest);
          if blocks {
            return Some((xTest, yTest));
          }
          yTest := yTest + 1;
        }
        xTest := xTest + 1;
      }
      return None;
    }
  }
}
