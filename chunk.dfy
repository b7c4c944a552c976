/** A chunk: one 256-column slice of the world with a fixed index and a
    256 x 256 grid of optional tiles, indexed [local column, row]. */
module Chunks {
  import opened Tiles
  import opened Coordinates

  /** The world generator, seen from the store: a deterministic choice of the
      initial tile of every cell, given chunk index, local column and row. */
  type Generator = (int, int, int) -> Option<Tile>

  class Chunk {
    const index: int
    const tiles: array2<Option<Tile>>

    /** The grid has the chunk's fixed dimensions. */
    predicate Valid()
    {
      tiles.Length0 == ChunkWidth && tiles.Length1 == WorldHeight
    }

    /** A fresh chunk: every cell empty, as a Java array of references is. */
    constructor (index: int)
      ensures this.index == index && Valid() && fresh(tiles)
      ensures forall i, j :: 0 <= i < ChunkWidth && 0 <= j < WorldHeight ==> tiles[i, j] == None
    {
      this.index := index;
      tiles := new Option<Tile>[ChunkWidth, WorldHeight]((i, j) => None);
    }

    /** The generator fills every cell of the chunk exactly once and touches
        nothing else. */
    method Generate(gen: Generator)
      requires Valid()
      modifies tiles
      ensures forall i, j :: 0 <= i < ChunkWidth && 0 <= j < WorldHeight ==> tiles[i, j] == gen(index, i, j)
    {
      forall i, j | 0 <= i < ChunkWidth && 0 <= j < WorldHeight {
        tiles[i, j] := gen(index, i, j);
      }
    }

    method GetTile(x: int, y: int) returns (t: Option<Tile>)
      requires Valid() && 0 <= x < ChunkWidth && InHeight(y)
      ensures t == tiles[x, y]
    {
      t := tiles[x, y];
    }

    /** Writes one cell; every other cell keeps its tile. */
    method SetTile(x: int, y: int, t: Option<Tile>)
      requires Valid() && 0 <= x < ChunkWidth && InHeight(y)
      modifies tiles
      ensures tiles[x, y] == t
      ensures forall i, j :: 0 <= i < ChunkWidth && 0 <= j < WorldHeight && (i != x || j != y) ==>
        tiles[i, j] == old(tiles[i, j])
    {
      tiles[x, y] := t;
    }
  }
}
