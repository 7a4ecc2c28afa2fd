/**
 The Merkle tree over file chunks (hashing.rs).  A level is reduced pair by pair, and an odd last
 node is promoted unchanged.
 */
module Merkle {
  import opened Basics

  type Digest = d: Bytes | |d| == 32 witness Zeros(32)

  /** BLAKE3, of which nothing is assumed but the length of its results. */
  type HashFn = Bytes -> Digest

  function Both(left: Digest, right: Digest): (b: Bytes)
    ensures |b| == 64 && b[..32] == left && b[32..] == right
  {
    var l: Bytes := left;
    l + right
  }

  function Node(hash: HashFn, left: Digest, right: Digest): Digest { hash(Both(left, right)) }

  // ---- The loops of the source --------------------------------------------------------------

  /** One level up: the hashes of the pairs, and the odd node at the end if there is one. */
  function Level(hash: HashFn, nodes: seq<Digest>): (up: seq<Digest>)
    ensures |up| == (|nodes| + 1) / 2
    decreases |nodes|
  {
    if |nodes| < 2 then nodes
    else [Node(hash, nodes[0], nodes[1])] + Level(hash, nodes[2..])
  }

  method ComputeRoot(hash: HashFn, leaves: seq<Digest>) returns (root: Digest)
    ensures root == if leaves == [] then hash([]) else TreeHash(hash, leaves)
  {
    if |leaves| == 0 {
      return hash([]);
    }
    if |leaves| == 1 {
      return leaves[0];
    }
    var currentLevel := leaves;
    while |currentLevel| > 1
      invariant currentLevel != [] && TreeHash(hash, currentLevel) == TreeHash(hash, leaves)
      decreases |currentLevel|
    {
      var nextLevel := NextLevel(hash, currentLevel);
      LevelKeepsTreeHash(hash, currentLevel);
      currentLevel := nextLevel;
    }
    return currentLevel[0];
  }

  /** The inner loop, which takes the nodes two at a time. */
  method NextLevel(hash: HashFn, currentLevel: seq<Digest>) returns (nextLevel: seq<Digest>)
    ensures nextLevel == Level(hash, currentLevel)
  {
    hide Level, Node;
    nextLevel := [];
    var at := 0;
    while at < |currentLevel|
      invariant at <= |currentLevel|
      invariant Level(hash, currentLevel) == nextLevel + Level(hash, currentLevel[at..])
    {
      LevelStep(hash, currentLevel, at);
      var pair := currentLevel[at..Min(at + 2, |currentLevel|)];
      var combined := if |pair| == 2 then Node(hash, pair[0], pair[1]) else pair[0];
      nextLevel := nextLevel + [combined];
      at := at + |pair|;
    }
    assert Level(hash, currentLevel[at..]) == [];
  }

  lemma LevelStep(hash: HashFn, nodes: seq<Digest>, at: nat)
    requires at < |nodes|
    ensures Level(hash, nodes[at..]) ==
            if at + 1 < |nodes| then [Node(hash, nodes[at], nodes[at + 1])] + Level(hash, nodes[at + 2..])
            else [nodes[at]] + Level(hash, nodes[at + 1..])
  {
    if at + 1 < |nodes| {
      assert nodes[at..][2..] == nodes[at + 2..];
    }
  }

  // ---- The recursive tree -------------------------------------------------------------------

  /** The largest power of two below `n`. */
  function Split(n: nat): (k: nat)
    requires n >= 2
    ensures 1 <= k < n <= 2 * k
    ensures n >= 3 ==> k % 2 == 0
  {
    if n == 2 then 1 else 2 * Split((n + 1) / 2)
  }

  /** The exponent of the split point. */
  function Log2(n: nat): (e: nat)
    requires n >= 2
    ensures Pow2(e) == Split(n)
  {
    if n == 2 then 0 else Log2((n + 1) / 2) + 1
  }

  lemma {:induction false} Pow2Monotone(e: nat, f: nat)
    requires e < f
    ensures 2 * Pow2(e) <= Pow2(f)
    decreases f
  {
    if e < f - 1 {
      Pow2Monotone(e, f - 1);
    }
  }

  /** The split point is the largest power of two below the number of leaves. */
  lemma SplitIsLargest(n: nat, e: nat)
    requires n >= 2
    ensures Split(n) == Pow2(Log2(n)) < n
    ensures Pow2(e) < n ==> Pow2(e) <= Split(n)
  {
    if Log2(n) < e {
      Pow2Monotone(Log2(n), e);
    } else if e < Log2(n) {
      Pow2Monotone(e, Log2(n));
    }
  }

  /** The tree hash of section 2.1 of RFC 6962 over leaf hashes, without its prefix bytes. */
  function TreeHash(hash: HashFn, leaves: seq<Digest>): Digest
    requires leaves != []
    decreases |leaves|
  {
    if |leaves| == 1 then leaves[0]
    else
      var k := Split(|leaves|);
      Node(hash, TreeHash(hash, leaves[..k]), TreeHash(hash, leaves[k..]))
  }

  lemma {:induction false} LevelAppend(hash: HashFn, a: seq<Digest>, b: seq<Digest>)
    requires |a| % 2 == 0
    ensures Level(hash, a + b) == Level(hash, a) + Level(hash, b)
    decreases |a|
  {
    if a == [] {
      assert a + b == b;
    } else {
      assert (a + b)[2..] == a[2..] + b;
      LevelAppend(hash, a[2..], b);
    }
  }

  /** Reducing one level does not change the tree hash. */
  lemma {:induction false} LevelKeepsTreeHash(hash: HashFn, nodes: seq<Digest>)
    requires nodes != []
    ensures Level(hash, nodes) != [] && TreeHash(hash, Level(hash, nodes)) == TreeHash(hash, nodes)
    decreases |nodes|
  {
    hide Node, Level, TreeHash;
    var n := |nodes|;
    if n <= 2 {
      LevelOfFew(hash, nodes);
    } else {
      var k := Split(n);
      var left, right := nodes[..k], nodes[k..];
      assert nodes == left + right;
      LevelAppend(hash, left, right);
      LevelKeepsTreeHash(hash, left);
      LevelKeepsTreeHash(hash, right);
      var up := Level(hash, nodes);
      assert up[..k / 2] == Level(hash, left) && up[k / 2..] == Level(hash, right);
      assert Split(|up|) == k / 2;
      TreeHashSplits(hash, up);
      TreeHashSplits(hash, nodes);
    }
  }

  lemma TreeHashSplits(hash: HashFn, leaves: seq<Digest>)
    requires |leaves| >= 2
    ensures var k := Split(|leaves|);
            TreeHash(hash, leaves) == hash(Both(TreeHash(hash, leaves[..k]), TreeHash(hash, leaves[k..])))
  {}

  /** The root of more than one leaf hashes the 64 bytes of the roots on both sides of the split, left before right. */
  lemma RootHashesHalves(hash: HashFn, leaves: seq<Digest>)
    requires |leaves| >= 2
    ensures var k := Split(|leaves|);
            var bytes := Both(TreeHash(hash, leaves[..k]), TreeHash(hash, leaves[k..]));
            && |bytes| == 64 && bytes[..32] == TreeHash(hash, leaves[..k]) && bytes[32..] == TreeHash(hash, leaves[k..])
            && TreeHash(hash, leaves) == hash(bytes)
  {
    hide TreeHash;
    TreeHashSplits(hash, leaves);
  }

  lemma TreeHashOfOne(hash: HashFn, leaf: Digest)
    ensures TreeHash(hash, [leaf]) == leaf
  {}

  lemma LevelOfFew(hash: HashFn, nodes: seq<Digest>)
    requires 1 <= |nodes| <= 2
    ensures TreeHash(hash, Level(hash, nodes)) == TreeHash(hash, nodes)
  {
    if |nodes| == 2 {
      assert Level(hash, nodes[2..]) == [];
      assert TreeHash(hash, nodes[..1]) == nodes[0] && TreeHash(hash, nodes[1..]) == nodes[1];
    }
  }

  // ---- Binding ------------------------------------------------------------------------------

  /** Walks two trees of the same shape from their roots down to a collision, if there is one. */
  function FindCollision(hash: HashFn, a: seq<Digest>, b: seq<Digest>): Option<(Bytes, Bytes)>
    requires |a| == |b| > 0
    decreases |a|
  {
    if |a| == 1 then None
    else
      var k := Split(|a|);
      var x := Both(TreeHash(hash, a[..k]), TreeHash(hash, a[k..]));
      var y := Both(TreeHash(hash, b[..k]), TreeHash(hash, b[k..]));
      if x != y then Some((x, y))
      else
        var left := FindCollision(hash, a[..k], b[..k]);
        if left.Some? then left else FindCollision(hash, a[k..], b[k..])
  }

  /** Equal roots over equally many leaves bind every leaf, or they exhibit a hash collision. */
  lemma {:induction false} RootBindsLeaves(hash: HashFn, a: seq<Digest>, b: seq<Digest>)
    requires |a| == |b| > 0
    requires TreeHash(hash, a) == TreeHash(hash, b)
    ensures match FindCollision(hash, a, b)
            case Some(pair) => pair.0 != pair.1 && hash(pair.0) == hash(pair.1)
            case None => a == b
    decreases |a|
  {
    hide TreeHash, Both;
    if |a| == 1 {
      TreeHashOfOne(hash, a[0]);
      TreeHashOfOne(hash, b[0]);
      assert a == [a[0]] && b == [b[0]];
    } else {
      TreeHashSplits(hash, a);
      TreeHashSplits(hash, b);
      var k := Split(|a|);
      var al, ar, bl, br := TreeHash(hash, a[..k]), TreeHash(hash, a[k..]), TreeHash(hash, b[..k]), TreeHash(hash, b[k..]);
      if Both(al, ar) == Both(bl, br) {
        RootBindsLeaves(hash, a[..k], b[..k]);
        RootBindsLeaves(hash, a[k..], b[k..]);
        assert a == a[..k] + a[k..] && b == b[..k] + b[k..];
      }
    }
  }

  /** Without equal leaf counts nothing is bound: every level of a tree has the root of the tree. */
  lemma RootIgnoresLeafCount(hash: HashFn, leaves: seq<Digest>)
    requires |leaves| >= 2
    ensures |Level(hash, leaves)| < |leaves|
    ensures TreeHash(hash, Level(hash, leaves)) == TreeHash(hash, leaves)
  {
    LevelKeepsTreeHash(hash, leaves);
  }

  // ---- Trees of chunks ----------------------------------------------------------------------

  datatype MerkleTree = MerkleTree(root: Digest, leaves: seq<Digest>)

  function Leaves(hash: HashFn, chunks: seq<Bytes>): (l: seq<Digest>)
    ensures |l| == |chunks|
    ensures forall i :: 0 <= i < |chunks| ==> l[i] == hash(chunks[i])
  {
    seq(|chunks|, i requires 0 <= i < |chunks| => hash(chunks[i]))
  }

  method Build(hash: HashFn, chunks: seq<Bytes>) returns (tree: MerkleTree)
    ensures tree.leaves == Leaves(hash, chunks)
    ensures |tree.leaves| == |chunks| && forall i :: 0 <= i < |chunks| ==> tree.leaves[i] == hash(chunks[i])
    ensures tree.root == if chunks == [] then hash([]) else TreeHash(hash, tree.leaves)
  {
    var leaves := Leaves(hash, chunks);
    var root := ComputeRoot(hash, leaves);
    return MerkleTree(root, leaves);
  }

  predicate VerifyChunk(hash: HashFn, tree: MerkleTree, chunk: Bytes, index: nat) {
    index < |tree.leaves| && hash(chunk) == tree.leaves[index]
  }

  /** A chunk is accepted in place of another only if the two collide; its own chunk always is. */
  lemma VerifyChunkExact(hash: HashFn, tree: MerkleTree, chunks: seq<Bytes>, chunk: Bytes, index: nat)
    requires tree.leaves == Leaves(hash, chunks)
    ensures VerifyChunk(hash, tree, chunk, index) <==>
            index < |chunks| && (chunk == chunks[index] || (chunk != chunks[index] && hash(chunk) == hash(chunks[index])))
  {}

  /** The pair of inputs that two different chunk lists with one root must have collided on. */
  function FindChunkCollision(hash: HashFn, a: seq<Bytes>, b: seq<Bytes>): Option<(Bytes, Bytes)>
    requires |a| == |b| > 0
  {
    var inner := FindCollision(hash, Leaves(hash, a), Leaves(hash, b));
    if inner.Some? then inner
    else if exists i :: 0 <= i < |a| && a[i] != b[i] then
      var i := FirstDifference(a, b);
      Some((a[i], b[i]))
    else None
  }

  function FirstDifference(a: seq<Bytes>, b: seq<Bytes>): (i: nat)
    requires |a| == |b| && exists i :: 0 <= i < |a| && a[i] != b[i]
    ensures i < |a| && a[i] != b[i] && a[..i] == b[..i]
  {
    if a[0] != b[0] then 0
    else
      assert exists i :: 0 <= i < |a[1..]| && a[1..][i] != b[1..][i] by {
        var i :| 0 <= i < |a| && a[i] != b[i];
        assert a[1..][i - 1] != b[1..][i - 1];
      }
      1 + FirstDifference(a[1..], b[1..])
  }

  /** Equal roots over equally many chunks bind the chunks, or they exhibit a hash collision. */
  lemma RootBindsChunks(hash: HashFn, a: seq<Bytes>, b: seq<Bytes>)
    requires |a| == |b| > 0
    requires TreeHash(hash, Leaves(hash, a)) == TreeHash(hash, Leaves(hash, b))
    ensures match FindChunkCollision(hash, a, b)
            case Some(pair) => pair.0 != pair.1 && hash(pair.0) == hash(pair.1)
            case None => a == b
  {
    var la, lb := Leaves(hash, a), Leaves(hash, b);
    RootBindsLeaves(hash, la, lb);
    if FindCollision(hash, la, lb).None? && exists i :: 0 <= i < |a| && a[i] != b[i] {
      var i := FirstDifference(a, b);
      assert la[i] == lb[i];
    }
  }
}
