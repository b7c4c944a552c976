/** The list of resident chunks as a value: the linear search over it, the
    "at most one chunk per index" invariant, and the eviction filter. */
module Residents {
  import opened Chunks

  /** At most one chunk per index. */
  predicate UniqueIndices(cs: seq<Chunk>)
  {
    forall a, b :: 0 <= a < b < |cs| ==> cs[a].index != cs[b].index
  }

  /** No two chunks share a grid, so writing one chunk leaves the others be. */
  predicate SeparateGrids(cs: seq<Chunk>)
  {
    forall a, b :: 0 <= a < b < |cs| ==> cs[a].tiles != cs[b].tiles
  }

  /** Every chunk has the fixed grid dimensions. */
  predicate Shaped(cs: seq<Chunk>)
  {
    forall k :: 0 <= k < |cs| ==> cs[k].Valid()
  }

  predicate WellFormed(cs: seq<Chunk>)
  {
    UniqueIndices(cs) && SeparateGrids(cs) && Shaped(cs)
  }

  /** Some chunk in `cs` has index `i`. */
  predicate Holds(cs: seq<Chunk>, i: int)
  {
    exists k :: 0 <= k < |cs| && cs[k].index == i
  }

  /** Where the linear search of World.getOrCreateChunk stops: the first
      chunk with index `i`, or `|cs|` when there is none. */
  function Position(cs: seq<Chunk>, i: int): (p: nat)
    ensures p <= |cs|
    ensures p < |cs| ==> cs[p].index == i
    ensures forall k :: 0 <= k < p ==> cs[k].index != i
    ensures p < |cs| <==> Holds(cs, i)
  {
    if cs == [] then 0
    else if cs[0].index == i then 0
    else 1 + Position(cs[1..], i)
  }

  /** Appending a chunk leaves earlier search hits where they were; a miss
      either finds the appended chunk or still misses. */
  lemma {:induction false} PositionAppend(cs: seq<Chunk>, c: Chunk, i: int)
    ensures Position(cs + [c], i) ==
      if Position(cs, i) < |cs| then Position(cs, i)
      else if c.index == i then |cs| else |cs| + 1
  {
    if cs != [] {
      assert (cs + [c])[1..] == cs[1..] + [c];
      PositionAppend(cs[1..], c, i);
    }
  }

  /** Within eviction distance: `|i - p| <= 2` (World.java, line 33). */
  predicate InReach(i: int, p: int)
  {
    -2 <= i - p <= 2
  }

  /** The chunks World.unloadChunks keeps around player chunk `p`, in their
      original order. */
  function Kept(cs: seq<Chunk>, p: int): (r: seq<Chunk>)
    ensures |r| <= |cs|
    ensures forall k :: 0 <= k < |r| ==> InReach(r[k].index, p)
  {
    if cs == [] then []
    else
      var init := Kept(cs[..|cs| - 1], p);
      if InReach(cs[|cs| - 1].index, p) then init + [cs[|cs| - 1]] else init
  }

  /** A chunk survives eviction exactly when it was resident and within
      reach. */
  lemma {:induction false} KeptMembers(cs: seq<Chunk>, p: int, c: Chunk)
    ensures c in Kept(cs, p) <==> c in cs && InReach(c.index, p)
  {
    if cs != [] {
      var init := cs[..|cs| - 1];
      assert cs == init + [cs[|cs| - 1]];
      KeptMembers(init, p, c);
    }
  }

  /** Eviction keeps relative order: filtering a concatenation filters each
      part in place. */
  lemma {:induction false} KeptConcat(a: seq<Chunk>, b: seq<Chunk>, p: int)
    ensures Kept(a + b, p) == Kept(a, p) + Kept(b, p)
  {
    if b == [] {
      assert a + b == a;
    } else {
      var ab := a + b;
      assert ab[..|ab| - 1] == a + b[..|b| - 1];
      assert ab[|ab| - 1] == b[|b| - 1];
      KeptConcat(a, b[..|b| - 1], p);
    }
  }

  /** Eviction keeps the list well formed. */
  lemma {:induction false} KeptWellFormed(cs: seq<Chunk>, p: int)
    requires WellFormed(cs)
    ensures WellFormed(Kept(cs, p))
  {
    if cs != [] {
      var init := cs[..|cs| - 1];
      var last := cs[|cs| - 1];
      KeptWellFormed(init, p);
      var ki := Kept(init, p);
      if InReach(last.index, p) {
        var r := ki + [last];
        forall a | 0 <= a < |ki|
          ensures ki[a].index != last.index && ki[a].tiles != last.tiles
        {
          KeptMembers(init, p, ki[a]);
          var k :| 0 <= k < |init| && init[k] == ki[a];
          assert cs[k] == ki[a];
        }
        assert forall a :: 0 <= a < |r| ==> r[a] == if a < |ki| then ki[a] else last;
      }
    }
  }

  /** After eviction around `p`, the search for a chunk within reach finds
      the same chunk as before, and the search for any other index misses. */
  lemma KeptPosition(cs: seq<Chunk>, p: int, i: int)
    requires UniqueIndices(cs)
    ensures Holds(Kept(cs, p), i) <==> InReach(i, p) && Holds(cs, i)
    ensures Holds(Kept(cs, p), i) ==> Kept(cs, p)[Position(Kept(cs, p), i)] == cs[Position(cs, i)]
  {
    var ks := Kept(cs, p);
    var q := Position(ks, i);
    if q < |ks| {
      KeptMembers(cs, p, ks[q]);
      var k :| 0 <= k < |cs| && cs[k] == ks[q];
      assert Position(cs, i) == k;
    }
    if InReach(i, p) && Holds(cs, i) {
      KeptMembers(cs, p, cs[Position(cs, i)]);
      var k :| 0 <= k < |ks| && ks[k] == cs[Position(cs, i)];
    }
  }

  /** One step of the eviction scan: filtering one more chunk of `cs`
      appends it when it is within reach. */
  lemma KeptStep(cs: seq<Chunk>, j: nat, p: int)
    requires j < |cs|
    ensures Kept(cs[..j + 1], p) ==
      Kept(cs[..j], p) + (if InReach(cs[j].index, p) then [cs[j]] else [])
    ensures cs[j..] == [cs[j]] + cs[j + 1..]
  {
    assert cs[..j + 1][..j] == cs[..j];
  }

  /** One step of the in-place eviction: the chunk at the seam between the
      survivors so far and the unvisited rest is `cs[j]`; dropping it or
      stepping past it moves the seam one chunk on. */
  lemma EvictStep(cs: seq<Chunk>, j: nat, p: int, list: seq<Chunk>, i: nat)
    requires j < |cs| && list == Kept(cs[..j], p) + cs[j..] && i == |Kept(cs[..j], p)|
    ensures i < |list| && list[i] == cs[j]
    ensures !InReach(cs[j].index, p) ==>
      list[..i] + list[i + 1..] == Kept(cs[..j + 1], p) + cs[j + 1..] && i == |Kept(cs[..j + 1], p)|
    ensures InReach(cs[j].index, p) ==>
      list == Kept(cs[..j + 1], p) + cs[j + 1..] && i + 1 == |Kept(cs[..j + 1], p)|
  {
    KeptStep(cs, j, p);
    var a := Kept(cs[..j], p);
    assert list[..i] == a;
    assert list[i + 1..] == cs[j + 1..];
  }

  /** Appending a chunk with a new index and its own full grid keeps the
      list well formed. */
  lemma AppendWellFormed(cs: seq<Chunk>, c: Chunk)
    requires WellFormed(cs) && c.Valid() && !Holds(cs, c.index)
    requires forall k :: 0 <= k < |cs| ==> cs[k].tiles != c.tiles
    ensures WellFormed(cs + [c])
  {
    var r := cs + [c];
    assert forall k :: 0 <= k < |r| ==> r[k] == if k < |cs| then cs[k] else c;
  }
}
