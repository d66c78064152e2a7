/**
  The tree hash of RFC 9162 section 2.1.1 built from the bottom: level by level, an unpaired last node
  moving up as it is. The recursive root is this hash, for every list of leaves.
  */
module TreeHash {
  import opened ByteStrings
  import opened Merkle

  /** The hashes of the leaves: one zero byte, then the leaf. */
  function LeafHashes(sha: Hash, leaves: seq<Bytes>): (r: seq<Bytes>)
    ensures |r| == |leaves|
    ensures forall i :: 0 <= i < |leaves| ==> r[i] == sha([0x00] + leaves[i])
  {
    if leaves == [] then [] else [sha([0x00] + leaves[0])] + LeafHashes(sha, leaves[1..])
  }

  /** The nodes of the next level: one byte 1, then the left and the right node of each pair. */
  function NextLevel(sha: Hash, nodes: seq<Bytes>): (r: seq<Bytes>)
    ensures |r| == (|nodes| + 1) / 2
  {
    if |nodes| <= 1 then nodes else [sha([0x01] + nodes[0] + nodes[1])] + NextLevel(sha, nodes[2..])
  }

  function TopNode(sha: Hash, nodes: seq<Bytes>): Bytes
    requires nodes != []
    decreases |nodes|
  {
    if |nodes| == 1 then nodes[0] else TopNode(sha, NextLevel(sha, nodes))
  }

  /** A leaf's hash is never taken of a node's input. */
  lemma DomainsSeparate(d: Bytes, left: Bytes, right: Bytes)
    ensures LeafInput(d) != NodeInput(left, right)
  {
    assert LeafInput(d)[0] == 0 && NodeInput(left, right)[0] == 1;
  }

  lemma {:induction false} LevelSplits(sha: Hash, nodes: seq<Bytes>, m: nat)
    requires 2 * m <= |nodes|
    ensures NextLevel(sha, nodes) == NextLevel(sha, nodes[..2 * m]) + NextLevel(sha, nodes[2 * m..])
    decreases m
  {
    hide NextLevel;
    if m == 0 {
      NoPairs(sha, nodes);
    } else {
      var rest := nodes[2..];
      LevelSplits(sha, rest, m - 1);
      FirstPair(sha, nodes);
      FirstPair(sha, nodes[..2 * m]);
      assert rest[..2 * (m - 1)] == nodes[..2 * m][2..] && rest[2 * (m - 1)..] == nodes[2 * m..];
    }
  }

  lemma FirstPair(sha: Hash, nodes: seq<Bytes>)
    requires |nodes| >= 2
    ensures NextLevel(sha, nodes) == [sha([0x01] + nodes[0] + nodes[1])] + NextLevel(sha, nodes[2..])
  {
  }

  lemma NoPairs(sha: Hash, nodes: seq<Bytes>)
    ensures NextLevel(sha, nodes) == NextLevel(sha, nodes[..0]) + NextLevel(sha, nodes[0..])
  {
    assert nodes[..0] == [] && nodes[0..] == nodes;
  }

  lemma TopOfNextLevel(sha: Hash, nodes: seq<Bytes>)
    requires nodes != []
    ensures TopNode(sha, NextLevel(sha, nodes)) == TopNode(sha, nodes)
  {
  }

  /** Above 2^j and up to 2^(j+1) nodes, the top joins the top of the first 2^j and the top of the others. */
  lemma {:induction false} TopSplits(sha: Hash, nodes: seq<Bytes>, j: nat, k: nat)
    requires k == Pow2(j) < |nodes| <= 2 * k
    ensures TopNode(sha, nodes) == sha([0x01] + TopNode(sha, nodes[..k]) + TopNode(sha, nodes[k..]))
    decreases j
  {
    if j == 0 {
      assert NextLevel(sha, nodes) == [sha([0x01] + nodes[0] + nodes[1])] + NextLevel(sha, nodes[2..]);
    } else {
      var m := Pow2(j - 1);
      var up := NextLevel(sha, nodes);
      LevelSplits(sha, nodes, m);
      TopSplits(sha, up, j - 1, m);
      assert up[..m] == NextLevel(sha, nodes[..k]) && up[m..] == NextLevel(sha, nodes[k..]);
      TopOfNextLevel(sha, nodes[..k]);
      TopOfNextLevel(sha, nodes[k..]);
    }
  }

  lemma LeafHashesSlice(sha: Hash, leaves: seq<Bytes>, k: nat)
    requires k <= |leaves|
    ensures LeafHashes(sha, leaves[..k]) == LeafHashes(sha, leaves)[..k]
    ensures LeafHashes(sha, leaves[k..]) == LeafHashes(sha, leaves)[k..]
  {
  }

  /** The top-down root is the bottom-up tree hash. */
  lemma {:induction false} RootIsTreeHash(sha: Hash, leaves: seq<Bytes>)
    requires leaves != []
    ensures Root(sha, leaves) == TopNode(sha, LeafHashes(sha, leaves))
    decreases |leaves|
  {
    if |leaves| > 1 {
      var j, k := SplitPower(|leaves|);
      RootIsTreeHash(sha, leaves[..k]);
      RootIsTreeHash(sha, leaves[k..]);
      LeafHashesSlice(sha, leaves, k);
      TopSplits(sha, LeafHashes(sha, leaves), j, k);
    }
  }
}
