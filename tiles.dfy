/** Tile values as the world store sees them. Tile classes themselves are
    outside this model; only the two properties the store reads are kept. */
module Tiles {

  /** An optional value; `None` plays the part of Java's `null` cell. */
  datatype Option<T> = None | Some(value: T)

  /** A tile's collision classification. Only `FullTile` stops a collision
      query; every other classification is folded into `NoCollision`. */
  datatype CollisionType = NoCollision | FullTile

  /** A tile: its kind, whether placing over it is allowed, and how it
      collides. */
  datatype Tile = Tile(kind: nat, isReplaceable: bool, collision: CollisionType)

  /** A cell whose tile blocks movement over the whole cell. */
  predicate Blocks(cell: Option<Tile>)
  {
    cell.Some? && cell.value.collision == FullTile
  }
}
