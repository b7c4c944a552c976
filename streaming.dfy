/** The load-ahead choice of World.update (lines 97-105): the player's chunk,
    the player's offset inside it, and the neighbour chunk to generate ahead
    of the player. Player positions are exact reals, not IEEE doubles. */
module Streaming {
  import opened Coordinates

  /** The player's chunk, `(int) Math.floor(x / 256)` (line 97). */
  function PlayerChunk(px: real): (c: int)
    ensures (c * ChunkWidth) as real <= px < (c * ChunkWidth + ChunkWidth) as real
  {
    var q := (px / 256.0).Floor;
    assert q as real <= px / 256.0 < q as real + 1.0;
    q
  }

  /** Java's `(int)` cast of a double: truncation toward zero. */
  function TruncReal(r: real): (t: int)
    ensures r >= 0.0 ==> t as real <= r < t as real + 1.0
    ensures r < 0.0 ==> t as real - 1.0 < r <= t as real
  {
    if r >= 0.0 then r.Floor else -((-r).Floor)
  }

  /** Java's `%` on doubles: the remainder takes the sign of the dividend,
      is smaller than 256 in magnitude, and differs from the dividend by a
      whole multiple of 256. */
  function JavaRemainder(r: real): (m: real)
    ensures r >= 0.0 ==> 0.0 <= m < 256.0
    ensures r < 0.0 ==> -256.0 < m <= 0.0
    ensures (r - m) / 256.0 == ((r - m) / 256.0).Floor as real
  {
    r - 256.0 * TruncReal(r / 256.0) as real
  }

  /** The offset as lines 99-100 compute it: truncate the remainder to an
      `int`, then add 256 when it is negative. */
  function OffsetAsWritten(px: real): (o: int)
    ensures 0 <= o < ChunkWidth
  {
    var m := TruncReal(JavaRemainder(px));
    if m < 0 then m + 256 else m
  }

  /** The load-ahead target as lines 101-105 choose it from that offset. */
  function LoadAheadAsWritten(px: real): (t: int)
    ensures t == PlayerChunk(px) + 1 || t == PlayerChunk(px) - 1
  {
    if OffsetAsWritten(px) > 128 then PlayerChunk(px) + 1 else PlayerChunk(px) - 1
  }

  /** The player's offset inside its own chunk: the local column of the tile
      the player stands in, the mapping the tile accessors use. */
  function LocalOffset(px: real): int
  {
    LocalX(px.Floor)
  }

  /** The neighbour generated ahead of the player: the one on the side of
      the nearer chunk edge. The next chunk is chosen exactly when its first
      column is fewer than 128 columns past the player's column, and the
      previous one exactly when the player's chunk starts at most 128
      columns before it (ties at the midpoint go back). */
  function LoadAheadTarget(px: real): (t: int)
    ensures t == PlayerChunk(px) + 1 <==> (PlayerChunk(px) + 1) * ChunkWidth - px.Floor < 128
    ensures t == PlayerChunk(px) - 1 <==> px.Floor - PlayerChunk(px) * ChunkWidth <= 128
  {
    PlayerChunkSplit(px);
    if LocalOffset(px) > 128 then PlayerChunk(px) + 1 else PlayerChunk(px) - 1
  }

  /** The player's chunk is the chunk of the column the player stands in, and
      the offset is that column's place in it, in `[0, 256)`. */
  lemma PlayerChunkSplit(px: real)
    ensures PlayerChunk(px) == ChunkOf(px.Floor)
    ensures PlayerChunk(px) * ChunkWidth + LocalOffset(px) == px.Floor
    ensures 0 <= LocalOffset(px) < ChunkWidth
  {
    var k := px.Floor;
    ChunkSplit(k);
    var q := ChunkOf(k);
    assert 256 * q <= k < 256 * q + 256;
    assert (256 * q) as real <= px < (256 * q + 256) as real;
    assert q as real <= px / 256.0 < q as real + 1.0;
  }

  /** For a player at a non-negative position the as-written offset is the
      player's local column. */
  lemma OffsetAsWrittenAgreesWhenNonNegative(px: real)
    requires px >= 0.0
    ensures OffsetAsWritten(px) == LocalOffset(px)
    ensures LoadAheadAsWritten(px) == LoadAheadTarget(px)
  {
    var q := PlayerChunk(px);
    PlayerChunkSplit(px);
    assert TruncReal(px / 256.0) == q;
    var m := JavaRemainder(px);
    assert m == px - 256.0 * q as real;
    assert m.Floor == px.Floor - 256 * q;
  }

  /** Finding: at x = -0.5 the player stands in column 255 of chunk -1, so
      chunk 0 is ahead; the truncating cast yields offset 0 and the code
      loads chunk -2 instead. */
  lemma AsWrittenLoadsWrongNeighbour()
    ensures PlayerChunk(-0.5) == -1 && LocalOffset(-0.5) == 255
    ensures OffsetAsWritten(-0.5) == 0
    ensures LoadAheadAsWritten(-0.5) == -2 && LoadAheadTarget(-0.5) == 0
  {
    PlayerChunkSplit(-0.5);
    assert (-0.5).Floor == -1;
    assert JavaRemainder(-0.5) == -0.5;
  }

  /** For a player at a negative position the as-written offset is off by
      one: it is the column after the player's, wrapping 256 to 0, unless
      the player is exactly on a column boundary. */
  lemma OffsetAsWrittenWhenNegative(px: real)
    requires px < 0.0
    ensures px.Floor as real != px ==> OffsetAsWritten(px) == (LocalOffset(px) + 1) % ChunkWidth
    ensures px.Floor as real == px ==> OffsetAsWritten(px) == LocalOffset(px)
  {
    PlayerChunkSplit(px);
    var pc := PlayerChunk(px);
    var f := px.Floor;
    var l := LocalOffset(px);
    var r := px - (256 * pc) as real;
    assert 0.0 <= r < 256.0;
    assert r.Floor == l by {
      assert (f - 256 * pc) as real <= r < (f - 256 * pc) as real + 1.0;
    }
    var q := TruncReal(px / 256.0);
    var m := JavaRemainder(px);
    assert m == px - 256.0 * q as real;
    var d := q - pc;
    assert m == r - 256.0 * d as real;
    assert d == 0 || d == 1;
    if d == 0 {
      assert r == 0.0 && m == 0.0 && l == 0;
      assert TruncReal(m) == 0;
    } else {
      assert m == r - 256.0;
      if f as real == px {
        assert r == l as real;
        assert TruncReal(m) == l - 256;
      } else {
        assert l as real < r < l as real + 1.0;
        assert TruncReal(m) == l + 1 - 256;
      }
    }
  }

  /** Finding, second face: at x = -127.5 the player stands in column 128 of
      chunk -1, the midpoint column, which goes back to chunk -2; the
      as-written offset is 129 and the code loads chunk 0. */
  lemma AsWrittenCrossesMidpointEarly()
    ensures PlayerChunk(-127.5) == -1 && LocalOffset(-127.5) == 128
    ensures OffsetAsWritten(-127.5) == 129
    ensures LoadAheadAsWritten(-127.5) == 0 && LoadAheadTarget(-127.5) == -2
  {
    PlayerChunkSplit(-127.5);
    assert (-127.5).Floor == -128;
    assert JavaRemainder(-127.5) == -127.5;
  }

  /** Worked cases: x = 300 is column 44 of chunk 1, so chunk 0 is loaded
      ahead; x = 450 is column 194 of chunk 1, so chunk 2 is. */
  lemma WorkedTargets()
    ensures PlayerChunk(300.0) == 1 && LocalOffset(300.0) == 44 && LoadAheadTarget(300.0) == 0
    ensures PlayerChunk(450.0) == 1 && LocalOffset(450.0) == 194 && LoadAheadTarget(450.0) == 2
    ensures LoadAheadAsWritten(300.0) == 0 && LoadAheadAsWritten(450.0) == 2
  {
    OffsetAsWrittenAgreesWhenNonNegative(300.0);
    OffsetAsWrittenAgreesWhenNonNegative(450.0);
    PlayerChunkSplit(300.0);
    PlayerChunkSplit(450.0);
  }
}
