/**
  The RFC 9162 Merkle tree over SHA-256: the recursive root and audit path, the
  iterative inclusion check, and the proof that the check accepts exactly the
  audit path of the committed leaf.

  SHA-256 is a parameter.  No property of it is assumed beyond its 32-byte output
  and, for soundness, that it does not collide on the byte strings the two
  computations really hash.
  */
module Merkle {
  import opened Wrappers
  import opened ByteStrings

  const DIGEST_LENGTH := 32
  const MAX_TREE_SIZE := 0xFFFF_FFFF

  type Hash = Bytes -> Bytes

  datatype MerkleError = EmptyTree | BadLeafLength(index: nat) | TreeSizeOutOfRange | IndexOutOfRange

  function LeafInput(d: Bytes): Bytes { [0] + d }

  function NodeInput(left: Bytes, right: Bytes): Bytes { [1] + left + right }

  function HashLeaf(sha: Hash, d: Bytes): Bytes { sha(LeafInput(d)) }

  function HashNode(sha: Hash, left: Bytes, right: Bytes): Bytes { sha(NodeInput(left, right)) }

  ghost predicate DigestLengths(sha: Hash) {
    forall x :: |sha(x)| == DIGEST_LENGTH
  }

  // ----- the recursive definitions -------------------------------------------------

  /** The largest power of two strictly below `n`. */
  function LargestPow2Lt(n: nat): (k: nat)
    requires n >= 2
    ensures 0 < k < n <= 2 * k
  {
    BitLengthBounds(n - 1);
    Pow2(BitLength(n - 1) - 1)
  }

  lemma {:induction false} BitLengthBounds(m: nat)
    requires m >= 1
    ensures BitLength(m) >= 1
    ensures Pow2(BitLength(m) - 1) <= m < 2 * Pow2(BitLength(m) - 1)
  {
    if m >= 2 {
      BitLengthBounds(m / 2);
    } else {
      assert BitLength(m / 2) == 0;
    }
  }

  function Root(sha: Hash, leaves: seq<Bytes>): Bytes
    requires leaves != []
    decreases |leaves|
  {
    if |leaves| == 1 then HashLeaf(sha, leaves[0])
    else
      var k := LargestPow2Lt(|leaves|);
      HashNode(sha, Root(sha, leaves[..k]), Root(sha, leaves[k..]))
  }

  function AuditPath(sha: Hash, leaves: seq<Bytes>, i: nat): seq<Bytes>
    requires i < |leaves|
    decreases |leaves|
  {
    if |leaves| == 1 then []
    else
      var k := LargestPow2Lt(|leaves|);
      if i < k then AuditPath(sha, leaves[..k], i) + [Root(sha, leaves[k..])]
      else AuditPath(sha, leaves[k..], i - k) + [Root(sha, leaves[..k])]
  }

  /** The sides on which the siblings of leaf `i` of an `n`-leaf tree stand, leaf to root:
      true for a left sibling. */
  function Sides(n: nat, i: nat): seq<bool>
    requires i < n
    decreases n
  {
    if n == 1 then []
    else
      var k := LargestPow2Lt(n);
      if i < k then Sides(k, i) + [false] else Sides(n - k, i - k) + [true]
  }

  function Join(sha: Hash, left: bool, sibling: Bytes, r: Bytes): Bytes {
    if left then HashNode(sha, sibling, r) else HashNode(sha, r, sibling)
  }

  /** Hashes `h` with each sibling in turn, each on its own side. */
  function Fold(sha: Hash, sides: seq<bool>, h: Bytes, proof: seq<Bytes>): Bytes
    requires |sides| == |proof|
  {
    if proof == [] then h else Fold(sha, sides[1..], Join(sha, sides[0], proof[0], h), proof[1..])
  }

  lemma {:induction false} FoldSnoc(sha: Hash, sides: seq<bool>, left: bool, h: Bytes, proof: seq<Bytes>, s: Bytes)
    requires |sides| == |proof|
    ensures Fold(sha, sides + [left], h, proof + [s]) == Join(sha, left, s, Fold(sha, sides, h, proof))
    decreases |proof|
  {
    var sides', proof' := sides + [left], proof + [s];
    if proof == [] {
      assert sides'[1..] == [] && proof'[1..] == [];
    } else {
      assert sides'[1..] == sides[1..] + [left] && proof'[1..] == proof[1..] + [s];
      FoldSnoc(sha, sides[1..], left, Join(sha, sides[0], proof[0], h), proof[1..], s);
    }
  }

  // ----- the shift loop's view of the same shape -----------------------------------

  /** The sides met by climbing one level at a time from node `fn` of a level whose last
      node is `sn`.  An unpaired last node moves up without a sibling. */
  function ClimbSides(fn: nat, sn: nat): seq<bool>
    requires fn <= sn
    decreases sn
  {
    if sn == 0 then []
    else if fn % 2 == 0 && fn == sn then ClimbSides(fn / 2, sn / 2)
    else [fn % 2 == 1] + ClimbSides(fn / 2, sn / 2)
  }

  lemma {:induction false} ClimbNeedsSiblings(fn: nat, sn: nat)
    requires fn <= sn && sn > 0
    ensures ClimbSides(fn, sn) != []
    decreases sn
  {
    if fn % 2 == 0 && fn == sn {
      ClimbNeedsSiblings(fn / 2, sn / 2);
    }
  }

  /** A node left of the top split climbs a perfect tree of 2^j leaves, then meets the right root. */
  lemma {:induction false} ClimbLeftOfSplit(j: nat, fn: nat, sn: nat)
    requires fn < Pow2(j) <= sn < 2 * Pow2(j)
    ensures ClimbSides(fn, sn) == ClimbSides(fn, Pow2(j) - 1) + [false]
    decreases j
  {
    if j > 0 {
      assert Pow2(j) == 2 * Pow2(j - 1);
      ClimbLeftOfSplit(j - 1, fn / 2, sn / 2);
    }
  }

  /** A node right of the top split climbs its own smaller tree, then meets the left root. */
  lemma {:induction false} ClimbRightOfSplit(j: nat, fn: nat, sn: nat)
    requires Pow2(j) <= fn <= sn < 2 * Pow2(j)
    ensures ClimbSides(fn, sn) == ClimbSides(fn - Pow2(j), sn - Pow2(j)) + [true]
    decreases j
  {
    if j > 0 {
      assert Pow2(j) == 2 * Pow2(j - 1);
      ClimbRightOfSplit(j - 1, fn / 2, sn / 2);
    }
  }

  lemma SplitPower(n: nat) returns (j: nat, k: nat)
    requires n > 1
    ensures k == Pow2(j) == LargestPow2Lt(n) && Pow2(j) <= n - 1 < 2 * Pow2(j)
  {
    BitLengthBounds(n - 1);
    j := BitLength(n - 1) - 1;
    k := LargestPow2Lt(n);
  }

  /** The bottom-up climb meets the sides that the top-down splits define. */
  lemma {:induction false} ClimbSidesAreSides(n: nat, i: nat)
    requires i < n
    ensures ClimbSides(i, n - 1) == Sides(n, i)
    decreases n
  {
    if n > 1 {
      var j, k := SplitPower(n);
      hide ClimbSides, Pow2, BitLength, LargestPow2Lt;
      if i < k {
        ClimbSidesAreSides(k, i);
        ClimbLeftOfSplit(j, i, n - 1);
      } else {
        var m, f := n - k, i - k;
        ClimbSidesAreSides(m, f);
        ClimbRightOfSplit(j, i, n - 1);
        assert ClimbSides(f, m - 1) == Sides(m, f);
      }
    }
  }

  // ----- the public operations -----------------------------------------------------

  predicate ValidLeaves(leaves: seq<Bytes>) {
    leaves != [] && forall d :: d in leaves ==> |d| == DIGEST_LENGTH
  }

  method InclusionProof(sha: Hash, leaves: seq<Bytes>, index: int) returns (r: Result<seq<Bytes>, MerkleError>)
    ensures r.Ok? <==> ValidLeaves(leaves) && |leaves| <= MAX_TREE_SIZE && 0 <= index < |leaves|
    ensures r.Ok? ==> r.value == AuditPath(sha, leaves, index)
  {
    if leaves == [] {
      return Err(EmptyTree);
    }
    for i := 0 to |leaves|
      invariant forall k :: 0 <= k < i ==> |leaves[k]| == DIGEST_LENGTH
    {
      if |leaves[i]| != DIGEST_LENGTH {
        assert leaves[i] in leaves;
        return Err(BadLeafLength(i));
      }
    }
    if |leaves| > MAX_TREE_SIZE {
      return Err(TreeSizeOutOfRange);
    }
    if index < 0 || index >= |leaves| {
      return Err(IndexOutOfRange);
    }
    return Ok(AuditPath(sha, leaves, index));
  }

  predicate AllDigests(hashes: seq<Bytes>) {
    forall j :: 0 <= j < |hashes| ==> |hashes[j]| == DIGEST_LENGTH
  }

  /** What the inclusion check decides: the shapes fit and the siblings fold to the root. */
  predicate Accepts(sha: Hash, leaf: Bytes, index: nat, treeSize: nat, proof: seq<Bytes>, root: Bytes)
    requires index < treeSize
  {
    && |leaf| == DIGEST_LENGTH
    && |root| == DIGEST_LENGTH
    && AllDigests(proof)
    && |proof| == |Sides(treeSize, index)|
    && Fold(sha, Sides(treeSize, index), HashLeaf(sha, leaf), proof) == root
  }

  /** The shift loop after `i` siblings: the sides still to meet, and what is left to fold. */
  predicate Climbing(sha: Hash, sides: seq<bool>, start: Bytes, proof: seq<Bytes>, fn: nat, sn: nat, acc: Bytes, i: nat) {
    && fn <= sn
    && i <= |sides|
    && i <= |proof|
    && ClimbSides(fn, sn) == sides[i..]
    && (|proof| == |sides| ==> Fold(sha, sides[i..], acc, proof[i..]) == Fold(sha, sides, start, proof))
  }

  lemma ClimbingStart(sha: Hash, start: Bytes, proof: seq<Bytes>, n: nat, index: nat)
    requires index < n
    ensures Climbing(sha, Sides(n, index), start, proof, index, n - 1, start, 0)
  {
    ClimbSidesAreSides(n, index);
    var sides := Sides(n, index);
    assert sides[0..] == sides && proof[0..] == proof;
  }

  /** An unpaired node moves up a level and meets no sibling. */
  lemma UnpairedMovesUp(sha: Hash, sides: seq<bool>, start: Bytes, proof: seq<Bytes>, fn: nat, sn: nat, acc: Bytes, i: nat)
    requires Climbing(sha, sides, start, proof, fn, sn, acc, i) && sn > 0 && fn % 2 == 0 && fn == sn
    ensures sn / 2 > 0 && Climbing(sha, sides, start, proof, fn / 2, sn / 2, acc, i)
  {
  }

  /** A paired node joins the next sibling on its side and moves up. */
  lemma PairedMovesUp(sha: Hash, sides: seq<bool>, start: Bytes, proof: seq<Bytes>, fn: nat, sn: nat, acc: Bytes, i: nat, left: bool)
    requires Climbing(sha, sides, start, proof, fn, sn, acc, i) && sn > 0 && i < |proof|
    requires left == (fn % 2 == 1) && (left || fn != sn)
    ensures Climbing(sha, sides, start, proof, fn / 2, sn / 2, Join(sha, left, proof[i], acc), i + 1)
  {
    hide Join;
    assert ClimbSides(fn, sn) == [left] + ClimbSides(fn / 2, sn / 2);
    assert sides[i..][0] == left && sides[i..][1..] == sides[i + 1..] && proof[i..][1..] == proof[i + 1..];
    assert proof[i..][0] == proof[i];
  }

  /** At the top no sibling is left to meet, below it some is. */
  lemma ClimbingEnds(sha: Hash, sides: seq<bool>, start: Bytes, proof: seq<Bytes>, fn: nat, sn: nat, acc: Bytes, i: nat)
    requires Climbing(sha, sides, start, proof, fn, sn, acc, i)
    ensures sn == 0 <==> i == |sides|
    ensures i == |proof| == |sides| ==> acc == Fold(sha, sides, start, proof)
  {
    if sn > 0 {
      ClimbNeedsSiblings(fn, sn);
    }
    assert i == |proof| ==> proof[i..] == [];
  }

  /** The shift loop of RFC 9162 section 2.1.3.2, with its inner loop for right-edge nodes. */
  method VerifyInclusion(sha: Hash, leaf: Bytes, index: int, treeSize: int, proof: seq<Bytes>, root: Bytes)
    returns (r: Result<bool, MerkleError>)
    ensures treeSize < 1 || treeSize > MAX_TREE_SIZE ==> r == Err(TreeSizeOutOfRange)
    ensures 1 <= treeSize <= MAX_TREE_SIZE && !(0 <= index < treeSize) ==> r == Err(IndexOutOfRange)
    ensures 1 <= treeSize <= MAX_TREE_SIZE && 0 <= index < treeSize
            ==> r == Ok(Accepts(sha, leaf, index, treeSize, proof, root))
  {
    hide Climbing, ClimbSides, Fold, Sides, HashLeaf, HashNode;
    if treeSize < 1 || treeSize > MAX_TREE_SIZE {
      return Err(TreeSizeOutOfRange);
    }
    if index < 0 || index >= treeSize {
      return Err(IndexOutOfRange);
    }
    if |leaf| != DIGEST_LENGTH || |root| != DIGEST_LENGTH {
      return Ok(false);
    }
    for i := 0 to |proof|
      invariant forall k :: 0 <= k < i ==> |proof[k]| == DIGEST_LENGTH
    {
      if |proof[i]| != DIGEST_LENGTH {
        return Ok(false);
      }
    }
    ghost var sides, start := Sides(treeSize, index), HashLeaf(sha, leaf);
    ClimbingStart(sha, start, proof, treeSize, index);
    if treeSize == 1 {
      ClimbingEnds(sha, sides, start, proof, 0, 0, start, 0);
      if |proof| != 0 || index != 0 {
        return Ok(false);
      }
      return Ok(HashLeaf(sha, leaf) == root);
    }
    var fn: nat, sn: nat := index, treeSize - 1;
    var acc := HashLeaf(sha, leaf);
    for i := 0 to |proof|
      invariant Climbing(sha, sides, start, proof, fn, sn, acc, i)
    {
      var s := proof[i];
      ClimbingEnds(sha, sides, start, proof, fn, sn, acc, i);
      if sn == 0 {
        return Ok(false);
      }
      if fn % 2 == 1 || fn == sn {
        var joined := HashNode(sha, s, acc);
        while fn % 2 == 0 && fn != 0
          invariant sn > 0 && (fn % 2 == 1 || fn == sn)
          invariant Climbing(sha, sides, start, proof, fn, sn, acc, i)
          decreases fn
        {
          UnpairedMovesUp(sha, sides, start, proof, fn, sn, acc, i);
          fn := fn / 2;
          sn := sn / 2;
        }
        PairedMovesUp(sha, sides, start, proof, fn, sn, acc, i, true);
        acc := joined;
      } else {
        PairedMovesUp(sha, sides, start, proof, fn, sn, acc, i, false);
        acc := HashNode(sha, acc, s);
      }
      fn := fn / 2;
      sn := sn / 2;
    }
    ClimbingEnds(sha, sides, start, proof, fn, sn, acc, |proof|);
    if sn != 0 {
      return Ok(false);
    }
    return Ok(acc == root);
  }

  // ----- completeness --------------------------------------------------------------

  /** The path of leaf `i` folds, side by side, to the root of `leaves`. */
  predicate PathReachesRoot(sha: Hash, leaves: seq<Bytes>, i: nat)
    requires i < |leaves|
  {
    var path, sides := AuditPath(sha, leaves, i), Sides(|leaves|, i);
    |path| == |sides| && Fold(sha, sides, HashLeaf(sha, leaves[i]), path) == Root(sha, leaves)
  }

  lemma PathThroughLeft(sha: Hash, leaves: seq<Bytes>, k: nat, i: nat)
    requires 1 < |leaves| && k == LargestPow2Lt(|leaves|) && i < k
    requires PathReachesRoot(sha, leaves[..k], i)
    ensures PathReachesRoot(sha, leaves, i)
  {
    var l, r := leaves[..k], leaves[k..];
    FoldSnoc(sha, Sides(k, i), false, HashLeaf(sha, l[i]), AuditPath(sha, l, i), Root(sha, r));
  }

  lemma PathThroughRight(sha: Hash, leaves: seq<Bytes>, k: nat, i: nat)
    requires 1 < |leaves| && k == LargestPow2Lt(|leaves|) && i < |leaves| - k
    requires PathReachesRoot(sha, leaves[k..], i)
    ensures PathReachesRoot(sha, leaves, k + i)
  {
    hide Fold, LargestPow2Lt, HashLeaf, HashNode;
    var l, r := leaves[..k], leaves[k..];
    assert Sides(|leaves|, k + i) == Sides(|r|, i) + [true];
    FoldSnoc(sha, Sides(|r|, i), true, HashLeaf(sha, r[i]), AuditPath(sha, r, i), Root(sha, l));
  }

  lemma {:induction false} AuditPathFoldsToRoot(sha: Hash, leaves: seq<Bytes>, i: nat)
    requires i < |leaves|
    ensures PathReachesRoot(sha, leaves, i)
    decreases |leaves|
  {
    if |leaves| > 1 {
      var k := LargestPow2Lt(|leaves|);
      if i < k {
        AuditPathFoldsToRoot(sha, leaves[..k], i);
        PathThroughLeft(sha, leaves, k, i);
      } else {
        var f := i - k;
        AuditPathFoldsToRoot(sha, leaves[k..], f);
        PathThroughRight(sha, leaves, k, f);
        assert i == k + f;
      }
    }
  }

  lemma RootLength(sha: Hash, leaves: seq<Bytes>)
    requires leaves != [] && DigestLengths(sha)
    ensures |Root(sha, leaves)| == DIGEST_LENGTH
  {
  }

  lemma {:induction false} AuditPathShapes(sha: Hash, leaves: seq<Bytes>, i: nat)
    requires i < |leaves| && DigestLengths(sha)
    ensures AllDigests(AuditPath(sha, leaves, i))
    decreases |leaves|
  {
    if |leaves| > 1 {
      var k := LargestPow2Lt(|leaves|);
      var l, r := leaves[..k], leaves[k..];
      if i < k {
        AuditPathShapes(sha, l, i);
        RootLength(sha, r);
      } else {
        AuditPathShapes(sha, r, i - k);
        RootLength(sha, l);
      }
    }
  }

  // ----- soundness -----------------------------------------------------------------

  /** Every node input hashed while folding `proof` over `h`. */
  ghost function FoldInputs(sha: Hash, sides: seq<bool>, h: Bytes, proof: seq<Bytes>): set<Bytes>
    requires |sides| == |proof|
  {
    if proof == [] then {}
    else
      {if sides[0] then NodeInput(proof[0], h) else NodeInput(h, proof[0])}
      + FoldInputs(sha, sides[1..], Join(sha, sides[0], proof[0], h), proof[1..])
  }

  ghost predicate CollisionFree(sha: Hash, inputs: set<Bytes>) {
    forall x, y :: x in inputs && y in inputs && sha(x) == sha(y) ==> x == y
  }

  lemma NodeInputInjective(l: Bytes, r: Bytes, l': Bytes, r': Bytes)
    requires |l| == |l'| && NodeInput(l, r) == NodeInput(l', r')
    ensures l == l' && r == r'
  {
    var x, y := NodeInput(l, r), NodeInput(l', r');
    assert x[1..1 + |l|] == l && y[1..1 + |l|] == l';
    assert x[1 + |l|..] == r && y[1 + |l|..] == r';
  }

  /** Two folds along the same sides that reach the same root start from the same hash
      and use the same siblings. */
  lemma {:induction false} FoldInjective(sha: Hash, sides: seq<bool>, h: Bytes, p: seq<Bytes>, h': Bytes, p': seq<Bytes>,
                                         inputs: set<Bytes>)
    requires |sides| == |p| == |p'| && DigestLengths(sha) && CollisionFree(sha, inputs)
    requires |h| == |h'| == DIGEST_LENGTH && AllDigests(p) && AllDigests(p')
    requires FoldInputs(sha, sides, h, p) <= inputs && FoldInputs(sha, sides, h', p') <= inputs
    requires Fold(sha, sides, h, p) == Fold(sha, sides, h', p')
    ensures h == h' && p == p'
    decreases |p|
  {
    if p != [] {
      FoldInjective(sha, sides[1..], Join(sha, sides[0], p[0], h), p[1..], Join(sha, sides[0], p'[0], h'), p'[1..], inputs);
      if sides[0] {
        NodeInputInjective(p[0], h, p'[0], h');
      } else {
        NodeInputInjective(h, p[0], h', p'[0]);
      }
    }
  }

  /** The byte strings hashed by checking (leaf, proof) and by an honest check at the same index. */
  ghost function ComparedInputs(sha: Hash, leaves: seq<Bytes>, i: nat, leaf: Bytes, proof: seq<Bytes>): set<Bytes>
    requires i < |leaves| && |proof| == |Sides(|leaves|, i)| == |AuditPath(sha, leaves, i)|
  {
    var sides := Sides(|leaves|, i);
    {LeafInput(leaf), LeafInput(leaves[i])}
    + FoldInputs(sha, sides, HashLeaf(sha, leaf), proof)
    + FoldInputs(sha, sides, HashLeaf(sha, leaves[i]), AuditPath(sha, leaves, i))
  }

  /** Soundness and completeness together: against the root of `leaves`, exactly one
      (leaf, proof) pair is accepted at each index, unless SHA-256 collides on the few
      byte strings compared. */
  lemma AcceptsExactlyTheAuditPath(sha: Hash, leaves: seq<Bytes>, i: nat, leaf: Bytes, proof: seq<Bytes>)
    requires ValidLeaves(leaves) && i < |leaves| && DigestLengths(sha)
    requires |proof| == |Sides(|leaves|, i)| == |AuditPath(sha, leaves, i)|
             ==> CollisionFree(sha, ComparedInputs(sha, leaves, i, leaf, proof))
    ensures Accepts(sha, leaf, i, |leaves|, proof, Root(sha, leaves))
       <==> leaf == leaves[i] && proof == AuditPath(sha, leaves, i)
  {
    AuditPathShapes(sha, leaves, i);
    RootLength(sha, leaves);
    AuditPathFoldsToRoot(sha, leaves, i);
    assert leaves[i] in leaves;
    if Accepts(sha, leaf, i, |leaves|, proof, Root(sha, leaves)) {
      FoldInjective(sha, Sides(|leaves|, i), HashLeaf(sha, leaf), proof, HashLeaf(sha, leaves[i]), AuditPath(sha, leaves, i),
                    ComparedInputs(sha, leaves, i, leaf, proof));
      assert LeafInput(leaf)[1..] == leaf && LeafInput(leaves[i])[1..] == leaves[i];
    }
  }

  /** The digest of 32 equal bytes. */
  function Block(v: byte): (d: Bytes)
    ensures |d| == DIGEST_LENGTH
  {
    seq(DIGEST_LENGTH, _ => v)
  }

  /** A hash that keeps the leaf of a leaf input and the right half of a node input. */
  function KeepLast(x: Bytes): (d: Bytes)
    ensures |d| == DIGEST_LENGTH
  {
    if |x| < DIGEST_LENGTH then Block(0) else x[|x| - DIGEST_LENGTH..]
  }

  lemma KeepLastOf(front: Bytes, d: Bytes)
    requires |d| == DIGEST_LENGTH
    ensures KeepLast(front + d) == d
  {
  }

  /** The hypotheses of soundness can hold together, for a leaf and a proof other than the committed ones. */
  lemma HypothesesConsistent()
    ensures var leaves, leaf, proof := [Block(1), Block(2)], Block(3), [Block(4)];
            && ValidLeaves(leaves)
            && DigestLengths(KeepLast)
            && |proof| == |Sides(2, 0)| == |AuditPath(KeepLast, leaves, 0)|
            && CollisionFree(KeepLast, ComparedInputs(KeepLast, leaves, 0, leaf, proof))
  {
    var leaves, leaf, proof := [Block(1), Block(2)], Block(3), [Block(4)];
    TwoLeaves(leaves, leaf, proof);
    BlocksDiffer();
    InputDigests();
    hide KeepLast, LeafInput, NodeInput, FoldInputs, Block, Sides, AuditPath;
    FourDistinct(LeafInput(Block(3)), LeafInput(Block(1)), NodeInput(Block(3), Block(4)), NodeInput(Block(1), Block(2)));
  }

  lemma InputDigests()
    ensures KeepLast(LeafInput(Block(3))) == Block(3) && KeepLast(LeafInput(Block(1))) == Block(1)
    ensures KeepLast(NodeInput(Block(3), Block(4))) == Block(4) && KeepLast(NodeInput(Block(1), Block(2))) == Block(2)
  {
    KeepLastOf([0], Block(3));
    KeepLastOf([0], Block(1));
    KeepLastOf([1] + Block(3), Block(4));
    KeepLastOf([1] + Block(1), Block(2));
  }

  lemma FourDistinct(a: Bytes, b: Bytes, c: Bytes, d: Bytes)
    requires KeepLast(a) != KeepLast(b) && KeepLast(a) != KeepLast(c) && KeepLast(a) != KeepLast(d)
    requires KeepLast(b) != KeepLast(c) && KeepLast(b) != KeepLast(d) && KeepLast(c) != KeepLast(d)
    ensures CollisionFree(KeepLast, {a, b} + {c} + {d})
  {
    hide KeepLast;
  }

  lemma BlocksDiffer()
    ensures forall v: byte, w: byte :: v != w ==> Block(v) != Block(w)
  {
    forall v: byte, w: byte | v != w ensures Block(v) != Block(w) {
      assert Block(v)[0] != Block(w)[0];
    }
  }

  lemma TwoLeaves(leaves: seq<Bytes>, leaf: Bytes, proof: seq<Bytes>)
    requires leaves == [Block(1), Block(2)] && leaf == Block(3) && proof == [Block(4)]
    ensures Sides(2, 0) == [false] && AuditPath(KeepLast, leaves, 0) == [Block(2)]
    ensures FoldInputs(KeepLast, [false], HashLeaf(KeepLast, leaf), proof) == {NodeInput(Block(3), Block(4))}
    ensures FoldInputs(KeepLast, [false], HashLeaf(KeepLast, leaves[0]), [Block(2)]) == {NodeInput(Block(1), Block(2))}
  {
    assert LargestPow2Lt(2) == 1;
    assert Sides(1, 0) == [];
    assert leaves[..1] == [Block(1)] && leaves[1..] == [Block(2)];
    assert AuditPath(KeepLast, [Block(1)], 0) == [];
    KeepLastOf([0], Block(1));
    KeepLastOf([0], Block(2));
    KeepLastOf([0], Block(3));
    assert Root(KeepLast, [Block(2)]) == Block(2);
    assert proof[1..] == [] && [Block(2)][1..] == [] && [false][1..] == [];
  }
}
