/** Global tile coordinates and their split into (chunk index, local column).
    The world is 256 tiles wide per chunk and 256 tiles high. Java's `/`
    truncates toward zero, so `Math.floorDiv` and `Math.floorMod` are written
    out here the way the JDK computes them, and then proved to be the
    floor-semantics split. */
module Coordinates {

  const ChunkWidth: int := 256
  const WorldHeight: int := 256

  /** Java's integer division on `int`: truncation toward zero. */
  function TruncDiv(a: int, b: int): (q: int)
    requires b > 0
    ensures a >= 0 ==> 0 <= a - q * b < b
    ensures a < 0 ==> -b < a - q * b <= 0
  {
    if a >= 0 then a / b else -((-a) / b)
  }

  /** `Math.floorDiv(a, b)` for a positive divisor: the truncated quotient,
      lowered by one when the operands have different signs and the division
      is inexact. */
  function FloorDiv(a: int, b: int): (q: int)
    requires b > 0
    ensures q * b <= a < q * b + b
  {
    var q := TruncDiv(a, b);
    if a < 0 && q * b != a then q - 1 else q
  }

  /** `Math.floorMod(a, b)`: the remainder that goes with `FloorDiv`; for a
      positive divisor it is never negative. */
  function FloorMod(a: int, b: int): (r: int)
    requires b > 0
    ensures 0 <= r < b
  {
    a - FloorDiv(a, b) * b
  }

  /** The chunk that holds global column `x` (World.java, lines 71 and 79). */
  function ChunkOf(x: int): (c: int)
    ensures c * ChunkWidth <= x < c * ChunkWidth + ChunkWidth
  {
    FloorDiv(x, ChunkWidth)
  }

  /** The column of `x` inside its chunk (World.java, lines 72 and 80). */
  function LocalX(x: int): (l: int)
    ensures 0 <= l < ChunkWidth
    ensures ChunkOf(x) * ChunkWidth + l == x
  {
    FloorMod(x, ChunkWidth)
  }

  /** A row the tile accessors accept. */
  predicate InHeight(y: int)
  {
    0 <= y < WorldHeight
  }

  /** The coordinate mapping: every global column is chunk start plus local
      column, with the local column in `[0, 255]`, for negative columns too. */
  lemma ChunkSplit(x: int)
    ensures ChunkOf(x) * ChunkWidth + LocalX(x) == x
    ensures 0 <= LocalX(x) < ChunkWidth
    ensures ChunkOf(x) == x / ChunkWidth && LocalX(x) == x % ChunkWidth
  {
    var q := TruncDiv(x, 256);
    var f := ChunkOf(x);
    if x < 0 && q * 256 != x {
      assert f * 256 == q * 256 - 256;
    }
    assert 0 <= x - f * 256 < 256;
    var e, r := x / 256, x % 256;
    assert x == e * 256 + r && 0 <= r < 256;
  }

  /** Column `x` is the only column with its chunk and local column, so
      writes at different columns land on different cells. */
  lemma SplitInjective(x: int, x': int)
    requires ChunkOf(x) == ChunkOf(x') && LocalX(x) == LocalX(x')
    ensures x == x'
  {
    ChunkSplit(x);
    ChunkSplit(x');
  }

  /** Worked case: column -1 is the last column of chunk -1. */
  lemma MinusOneIsLastColumnOfChunkMinusOne()
    ensures ChunkOf(-1) == -1 && LocalX(-1) == 255
  {
    ChunkSplit(-1);
  }
}
