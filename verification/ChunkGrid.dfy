/** The chunk grid of an upload session: ranges, the outstanding indices, and what the chunks make up. */
module ChunkGrid {
  import opened ByteStrings

  /** `i * c`, one chunk at a time. */
  function Offset(i: nat, c: nat): nat {
    if i == 0 then 0 else Offset(i - 1, c) + c
  }

  lemma {:induction false} OffsetIsProduct(i: nat, c: nat)
    ensures Offset(i, c) == i * c
  {
    if i > 0 {
      OffsetIsProduct(i - 1, c);
    }
  }

  lemma {:induction false} OffsetMonotone(i: nat, j: nat, c: nat)
    requires i <= j
    ensures Offset(i, c) <= Offset(j, c)
    decreases j
  {
    if i < j {
      OffsetMonotone(i, j - 1, c);
    }
  }

  /** A source and the server's grid over its first `total` bytes. */
  datatype Grid = Grid(source: Bytes, chunkBytes: nat, total: nat, count: nat)

  /** `count` is the number of chunks it takes to cover `total`. */
  predicate ValidGrid(g: Grid) {
    && g.chunkBytes > 0
    && g.total <= |g.source|
    && g.total <= Offset(g.count, g.chunkBytes)
    && (g.count > 0 ==> Offset(g.count - 1, g.chunkBytes) < g.total)
  }

  function ChunkRange(index: nat, chunkBytes: nat, total: nat): (nat, nat) {
    (Offset(index, chunkBytes), Min(Offset(index, chunkBytes) + chunkBytes, total))
  }

  lemma RangeInside(g: Grid, i: nat)
    requires ValidGrid(g) && i < g.count
    ensures var r := ChunkRange(i, g.chunkBytes, g.total); r.0 < r.1 <= g.total
  {
    OffsetMonotone(i, g.count - 1, g.chunkBytes);
  }

  /** The bytes of chunk `i`. */
  function ChunkData(g: Grid, i: nat): (r: Bytes)
    requires ValidGrid(g) && i < g.count
    ensures |r| > 0
  {
    RangeInside(g, i);
    var r := ChunkRange(i, g.chunkBytes, g.total);
    g.source[r.0..r.1]
  }

  // ----- outstanding indices -------------------------------------------------------

  /** The indices below `count` that have not been received, ascending. */
  function MissingIndices(have: set<nat>, count: nat): (r: seq<nat>)
    ensures forall i: nat :: i in r <==> i < count && i !in have
    ensures forall k :: 0 <= k < |r| ==> r[k] < count
    ensures forall j, k :: 0 <= j < k < |r| ==> r[j] < r[k]
  {
    if count == 0 then []
    else if count - 1 in have then MissingIndices(have, count - 1)
    else MissingIndices(have, count - 1) + [count - 1]
  }

  // ----- what the chunks make up ---------------------------------------------------

  /** The stored chunks 0 .. n - 1, in order. */
  function Assembled(stored: map<nat, Bytes>, n: nat): Bytes
    requires forall i: nat :: i < n ==> i in stored
  {
    if n == 0 then [] else Assembled(stored, n - 1) + stored[n - 1]
  }

  predicate Holds(g: Grid, stored: map<nat, Bytes>)
    requires ValidGrid(g)
  {
    forall i :: i in stored ==> i < g.count && stored[i] == ChunkData(g, i)
  }

  lemma PrefixGrows(g: Grid, i: nat)
    requires ValidGrid(g) && i < g.count
    ensures var a, b := Min(Offset(i, g.chunkBytes), g.total), Min(Offset(i + 1, g.chunkBytes), g.total);
            g.source[..a] + ChunkData(g, i) == g.source[..b]
  {
    RangeInside(g, i);
  }

  lemma {:induction false} AssembledPrefix(g: Grid, stored: map<nat, Bytes>, n: nat)
    requires ValidGrid(g) && Holds(g, stored) && n <= g.count && forall i: nat :: i < n ==> i in stored
    ensures Assembled(stored, n) == g.source[..Min(Offset(n, g.chunkBytes), g.total)]
  {
    if n > 0 {
      AssembledPrefix(g, stored, n - 1);
      PrefixGrows(g, n - 1);
    }
  }

  /** All chunks of the grid, in order, are the first `total` bytes of the source. */
  lemma AllChunksAreSource(g: Grid, stored: map<nat, Bytes>)
    requires ValidGrid(g) && Holds(g, stored) && forall i: nat :: i < g.count ==> i in stored
    ensures Assembled(stored, g.count) == g.source[..g.total]
  {
    AssembledPrefix(g, stored, g.count);
  }

  /** The bytes of the chunks with these indices. */
  function SizeOf(g: Grid, indices: seq<nat>): nat
    requires ValidGrid(g) && forall k :: 0 <= k < |indices| ==> indices[k] < g.count
  {
    if indices == [] then 0
    else SizeOf(g, indices[..|indices| - 1]) + |ChunkData(g, indices[|indices| - 1])|
  }

  lemma SizeOfSnoc(g: Grid, init: seq<nat>, last: nat)
    requires ValidGrid(g) && (forall k :: 0 <= k < |init| ==> init[k] < g.count) && last < g.count
    ensures SizeOf(g, init + [last]) == SizeOf(g, init) + |ChunkData(g, last)|
  {
    assert (init + [last])[..|init|] == init;
  }

  lemma ChunkLength(g: Grid, i: nat)
    requires ValidGrid(g) && i < g.count
    ensures Offset(i, g.chunkBytes) < g.total
    ensures Offset(i, g.chunkBytes) + |ChunkData(g, i)| == Min(Offset(i + 1, g.chunkBytes), g.total)
  {
    RangeInside(g, i);
  }

  lemma {:induction false} SizeOfUpTo(g: Grid, n: nat, indices: seq<nat>)
    requires ValidGrid(g) && n <= g.count && |indices| == n && forall k :: 0 <= k < n ==> indices[k] == k
    ensures SizeOf(g, indices) == Min(Offset(n, g.chunkBytes), g.total)
    decreases n
  {
    if n > 0 {
      SizeOfUpTo(g, n - 1, indices[..n - 1]);
      ChunkLength(g, n - 1);
    }
  }

  lemma {:induction false} NothingReceived(n: nat)
    ensures |MissingIndices({}, n)| == n && forall k :: 0 <= k < n ==> MissingIndices({}, n)[k] == k
  {
    if n > 0 {
      NothingReceived(n - 1);
    }
  }

  /** With nothing received, the outstanding chunks have `total` bytes. */
  lemma SizeOfAll(g: Grid)
    requires ValidGrid(g)
    ensures SizeOf(g, MissingIndices({}, g.count)) == g.total
  {
    NothingReceived(g.count);
    SizeOfUpTo(g, g.count, MissingIndices({}, g.count));
  }
}
