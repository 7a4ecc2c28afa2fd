/**
 The Merkle root of the Dart application (crypto_service.dart): nodes are hex strings, and an odd
 last node is paired with itself.
 */
module HexMerkle {
  import opened Basics

  type HexDigest = s: string | |s| == 64 witness seq(64, _ => '0')

  /** SHA-256 of the UTF-8 bytes of a string, in hex. */
  type HashFn = string -> HexDigest

  function Both(left: HexDigest, right: HexDigest): (b: string)
    ensures |b| == 128 && b[..64] == left && b[64..] == right
  {
    var l: string := left;
    l + right
  }

  function Node(hash: HashFn, left: HexDigest, right: HexDigest): HexDigest { hash(Both(left, right)) }

  // ---- The loops of the source --------------------------------------------------------------

  function Level(hash: HashFn, nodes: seq<HexDigest>): (up: seq<HexDigest>)
    ensures |up| == (|nodes| + 1) / 2
    decreases |nodes|
  {
    if nodes == [] then []
    else if |nodes| == 1 then [Node(hash, nodes[0], nodes[0])]
    else [Node(hash, nodes[0], nodes[1])] + Level(hash, nodes[2..])
  }

  method BuildMerkleRoot(hash: HashFn, hashes: seq<HexDigest>) returns (root: HexDigest)
    ensures root == if hashes == [] then hash("") else PaddedTree(hash, hashes, Depth(|hashes|))
  {
    hide Level;
    if |hashes| == 0 {
      return hash("");
    }
    if |hashes| == 1 {
      return hashes[0];
    }
    var currentLevel := hashes;
    while |currentLevel| > 1
      invariant currentLevel != []
      invariant PaddedTree(hash, currentLevel, Depth(|currentLevel|)) == PaddedTree(hash, hashes, Depth(|hashes|))
      decreases |currentLevel|
    {
      var nextLevel := NextLevel(hash, currentLevel);
      LevelKeepsTree(hash, currentLevel, Depth(|currentLevel|));
      currentLevel := nextLevel;
    }
    return currentLevel[0];
  }

  /** The inner loop, which takes the nodes two at a time. */
  method NextLevel(hash: HashFn, currentLevel: seq<HexDigest>) returns (nextLevel: seq<HexDigest>)
    ensures nextLevel == Level(hash, currentLevel)
  {
    hide Level, Node;
    nextLevel := [];
    var i := 0;
    while i < |currentLevel|
      invariant Level(hash, currentLevel) == nextLevel + Level(hash, currentLevel[Min(i, |currentLevel|)..])
    {
      LevelStep(hash, currentLevel, i);
      if i + 1 < |currentLevel| {
        nextLevel := nextLevel + [Node(hash, currentLevel[i], currentLevel[i + 1])];
      } else {
        nextLevel := nextLevel + [Node(hash, currentLevel[i], currentLevel[i])];
      }
      i := i + 2;
    }
    assert Level(hash, currentLevel[|currentLevel|..]) == [];
  }

  lemma LevelStep(hash: HashFn, nodes: seq<HexDigest>, at: nat)
    requires at < |nodes|
    ensures Level(hash, nodes[at..]) ==
            if at + 1 < |nodes| then [Node(hash, nodes[at], nodes[at + 1])] + Level(hash, nodes[at + 2..])
            else [Node(hash, nodes[at], nodes[at])] + Level(hash, nodes[|nodes|..])
  {
    if at + 1 < |nodes| {
      assert nodes[at..][2..] == nodes[at + 2..];
    }
  }

  // ---- The recursive tree -------------------------------------------------------------------

  /** The height of the smallest full binary tree with at least `n` leaves. */
  function Depth(n: nat): (d: nat)
    requires n >= 1
    ensures n <= Pow2(d)
    ensures n > 1 ==> Pow2(d - 1) < n
  {
    if n == 1 then 0 else 1 + Depth((n + 1) / 2)
  }

  /** A full binary tree of the given height in which a missing right half repeats the left half. */
  function PaddedTree(hash: HashFn, nodes: seq<HexDigest>, depth: nat): HexDigest
    requires 1 <= |nodes| <= Pow2(depth)
    decreases depth
  {
    if depth == 0 then nodes[0]
    else
      var half := Pow2(depth - 1);
      if |nodes| <= half then
        var left := PaddedTree(hash, nodes, depth - 1);
        Node(hash, left, left)
      else
        Node(hash, PaddedTree(hash, nodes[..half], depth - 1), PaddedTree(hash, nodes[half..], depth - 1))
  }

  lemma {:induction false} LevelAppend(hash: HashFn, a: seq<HexDigest>, b: seq<HexDigest>)
    requires |a| % 2 == 0
    ensures Level(hash, a + b) == Level(hash, a) + Level(hash, b)
    decreases |a|
  {
    if a == [] {
      assert a + b == b;
    } else {
      assert (a + b)[2..] == a[2..] + b;
      LevelAppend(hash, a[2..], b);
    }
  }

  lemma TreeUnfold(hash: HashFn, nodes: seq<HexDigest>, depth: nat)
    requires depth > 0 && 1 <= |nodes| <= Pow2(depth)
    ensures PaddedTree(hash, nodes, depth) ==
            var half := Pow2(depth - 1);
            if |nodes| <= half then hash(Both(PaddedTree(hash, nodes, depth - 1), PaddedTree(hash, nodes, depth - 1)))
            else hash(Both(PaddedTree(hash, nodes[..half], depth - 1), PaddedTree(hash, nodes[half..], depth - 1)))
  {}

  /** Reducing one level lowers the tree by one and keeps its root. */
  lemma {:induction false} LevelKeepsTree(hash: HashFn, nodes: seq<HexDigest>, depth: nat)
    requires depth > 0 && 1 <= |nodes| <= Pow2(depth)
    ensures 1 <= |Level(hash, nodes)| <= Pow2(depth - 1)
    ensures PaddedTree(hash, Level(hash, nodes), depth - 1) == PaddedTree(hash, nodes, depth)
    decreases depth
  {
    hide Level, PaddedTree, Node;
    var up := Level(hash, nodes);
    TreeUnfold(hash, nodes, depth);
    if depth == 1 {
      LevelOfFew(hash, nodes);
    } else {
      var half := Pow2(depth - 1);
      TreeUnfold(hash, up, depth - 1);
      if |nodes| <= half {
        LevelKeepsTree(hash, nodes, depth - 1);
      } else {
        var left, right := nodes[..half], nodes[half..];
        assert nodes == left + right;
        LevelAppend(hash, left, right);
        LevelKeepsTree(hash, left, depth - 1);
        LevelKeepsTree(hash, right, depth - 1);
        assert up[..half / 2] == Level(hash, left) && up[half / 2..] == Level(hash, right);
      }
    }
  }

  lemma LevelOfFew(hash: HashFn, nodes: seq<HexDigest>)
    requires 1 <= |nodes| <= 2
    ensures PaddedTree(hash, Level(hash, nodes), 0) == PaddedTree(hash, nodes, 1)
  {
    assert Pow2(0) == 1 && Pow2(1) == 2;
    if |nodes| == 2 {
      assert Level(hash, nodes[2..]) == [];
      assert PaddedTree(hash, nodes[..1], 0) == nodes[0] && PaddedTree(hash, nodes[1..], 0) == nodes[1];
    }
  }

  /** Up to three leaves, written out: one is the root itself, and the odd third is paired with itself. */
  lemma SmallTrees(hash: HashFn, a: HexDigest, b: HexDigest, c: HexDigest)
    ensures PaddedTree(hash, [a], Depth(1)) == a
    ensures PaddedTree(hash, [a, b], Depth(2)) == hash(Both(a, b))
    ensures PaddedTree(hash, [a, b, c], Depth(3)) == hash(Both(hash(Both(a, b)), hash(Both(c, c))))
  {
    assert Depth(3) == 2 && Pow2(1) == 2 && Pow2(0) == 1;
    assert [a, b][..1] == [a] && [a, b][1..] == [b];
    assert [a, b, c][..2] == [a, b] && [a, b, c][2..] == [c];
  }

  // ---- Binding ------------------------------------------------------------------------------

  /** The two strings hashed at the root of a tree of positive height. */
  function RootInput(hash: HashFn, nodes: seq<HexDigest>, depth: nat): string
    requires depth > 0 && 1 <= |nodes| <= Pow2(depth)
  {
    var half := Pow2(depth - 1);
    if |nodes| <= half then Both(PaddedTree(hash, nodes, depth - 1), PaddedTree(hash, nodes, depth - 1))
    else Both(PaddedTree(hash, nodes[..half], depth - 1), PaddedTree(hash, nodes[half..], depth - 1))
  }

  /** Walks two trees of the same shape from their roots down to a collision, if there is one. */
  function FindCollision(hash: HashFn, a: seq<HexDigest>, b: seq<HexDigest>, depth: nat): Option<(string, string)>
    requires 1 <= |a| == |b| <= Pow2(depth)
    decreases depth
  {
    if depth == 0 then None
    else if RootInput(hash, a, depth) != RootInput(hash, b, depth) then
      Some((RootInput(hash, a, depth), RootInput(hash, b, depth)))
    else
      var half := Pow2(depth - 1);
      if |a| <= half then FindCollision(hash, a, b, depth - 1)
      else
        var left := FindCollision(hash, a[..half], b[..half], depth - 1);
        if left.Some? then left else FindCollision(hash, a[half..], b[half..], depth - 1)
  }

  /** Equal roots over equally many leaves bind every leaf, or they exhibit a hash collision. */
  lemma {:induction false} RootBindsLeaves(hash: HashFn, a: seq<HexDigest>, b: seq<HexDigest>, depth: nat)
    requires 1 <= |a| == |b| <= Pow2(depth)
    requires PaddedTree(hash, a, depth) == PaddedTree(hash, b, depth)
    ensures match FindCollision(hash, a, b, depth)
            case Some(pair) => pair.0 != pair.1 && hash(pair.0) == hash(pair.1)
            case None => a == b
    decreases depth
  {
    hide PaddedTree, Both;
    if depth == 0 {
      TreeOfOne(hash, a[0]);
      TreeOfOne(hash, b[0]);
      assert a == [a[0]] && b == [b[0]];
    } else {
      TreeUnfold(hash, a, depth);
      TreeUnfold(hash, b, depth);
      var half := Pow2(depth - 1);
      if RootInput(hash, a, depth) == RootInput(hash, b, depth) {
        if |a| <= half {
          RootBindsLeaves(hash, a, b, depth - 1);
        } else {
          RootBindsLeaves(hash, a[..half], b[..half], depth - 1);
          RootBindsLeaves(hash, a[half..], b[half..], depth - 1);
          assert a == a[..half] + a[half..] && b == b[..half] + b[half..];
        }
      }
    }
  }

  lemma TreeOfOne(hash: HashFn, leaf: HexDigest)
    ensures Pow2(0) == 1 && PaddedTree(hash, [leaf], 0) == leaf
  {}

  /** Leaf counts must agree for this: repeating an odd last leaf never changes the root. */
  lemma RepeatedLastLeaf(hash: HashFn, leaves: seq<HexDigest>)
    requires |leaves| >= 3 && |leaves| % 2 == 1
    ensures var longer := leaves + [leaves[|leaves| - 1]];
            PaddedTree(hash, longer, Depth(|longer|)) == PaddedTree(hash, leaves, Depth(|leaves|))
  {
    hide Level, PaddedTree;
    var last := leaves[|leaves| - 1];
    var front := leaves[..|leaves| - 1];
    var longer := leaves + [last];
    assert leaves == front + [last] && longer == front + [last, last];
    LevelAppend(hash, front, [last]);
    LevelAppend(hash, front, [last, last]);
    LevelOfLast(hash, last);
    LevelKeepsTree(hash, leaves, Depth(|leaves|));
    LevelKeepsTree(hash, longer, Depth(|longer|));
  }

  lemma LevelOfLast(hash: HashFn, last: HexDigest)
    ensures Level(hash, [last]) == Level(hash, [last, last])
  {
    assert [last, last][2..] == [];
  }
}
