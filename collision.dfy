/** The cell ranges the collision queries of World.java scan (lines 154-180).
    Coordinates are exact reals; a cell `k` covers `[k, k + 1)`. */
module Collision {

  /** First cell a box edge starting at `lo` touches (lines 155-156). */
  function SpanStart(lo: real): (k: int)
    ensures k as real <= lo < k as real + 1.0
  {
    lo.Floor
  }

  /** Last cell a box `[lo, lo + len)` touches (lines 157-160): the cell of the
      far edge, minus one when that edge lies exactly on a cell boundary. */
  function SpanEnd(lo: real, len: real): (k: int)
    ensures k as real < lo + len <= k as real + 1.0
  {
    var e := (lo + len).Floor;
    if e as real == lo + len then e - 1 else e
  }

  /** For a box of positive extent, the scanned cells are exactly the cells
      that overlap `[lo, lo + len)`; a far edge on a boundary adds no cell. */
  lemma SpanIsOverlap(lo: real, len: real, k: int)
    requires len > 0.0
    ensures SpanStart(lo) <= k <= SpanEnd(lo, len) <==> lo < k as real + 1.0 && (k as real) < lo + len
  {
    var e := (lo + len).Floor;
    if e as real == lo + len {
      assert k <= e - 1 <==> (k as real) < lo + len;
    } else {
      assert k <= e <==> (k as real) < lo + len;
    }
  }

  /** A unit box at an integer position scans its own cell only: width 1 at
      x = 5 tests column 5 and not column 6. */
  lemma UnitSpanIsOneCell(k: int)
    ensures SpanStart(k as real) == k && SpanEnd(k as real, 1.0) == k
  {
    assert (k as real + 1.0).Floor == k + 1;
  }

  /** Scan order of the box query: columns ascending, and rows ascending
      within a column. */
  predicate ScansBefore(a: (int, int), b: (int, int))
  {
    a.0 < b.0 || (a.0 == b.0 && a.1 < b.1)
  }
}
