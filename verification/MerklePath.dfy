/** Binary Merkle trees over a power-of-two number of leaves, and their audit paths
    (pkg/rsema1d/merkle/proof.go, pkg/rsema1d/merkle/tree.go).  Hashing is an arbitrary function. */
module MerklePath {
  import opened Basics
  import opened BinaryLevels

  type Node = seq<bv8>

  const NODE_SIZE := 32

  type PairHash = (Node, Node) -> Node

  /** The root over 2^d leaf hashes. */
  function Root(pair: PairHash, leaves: seq<Node>, d: nat): Node
    requires |leaves| == Pow2(d)
  {
    if d == 0 then
      leaves[0]
    else
      pair(Root(pair, leaves[..Pow2(d - 1)], d - 1), Root(pair, leaves[Pow2(d - 1)..], d - 1))
  }

  /** Sibling hashes of leaf `i`, from the leaf to the root. */
  function Path(pair: PairHash, leaves: seq<Node>, d: nat, i: nat): (path: seq<Node>)
    requires |leaves| == Pow2(d) && i < |leaves|
    ensures |path| == d
  {
    if d == 0 then
      []
    else
      var half := Pow2(d - 1);
      var left, right := leaves[..half], leaves[half..];
      if i < half then
        Path(pair, left, d - 1, i) + [Root(pair, right, d - 1)]
      else
        Path(pair, right, d - 1, i - half) + [Root(pair, left, d - 1)]
  }

  /** Joining a node with its sibling: the node is the left child at an even position. */
  function Join(pair: PairHash, node: Node, pos: nat, sibling: Node): Node {
    if pos % 2 == 0 then pair(node, sibling) else pair(sibling, node)
  }

  /** Recomputes a root from a leaf hash and its path; None if a sibling has the wrong size. */
  function RootFrom(pair: PairHash, leaf: Node, pos: nat, path: seq<Node>): Option<Node>
    decreases |path|
  {
    if path == [] then
      Some(leaf)
    else if |path[0]| != NODE_SIZE then
      None
    else
      RootFrom(pair, Join(pair, leaf, pos, path[0]), pos / 2, path[1..])
  }

  method RootFromProof(pair: PairHash, leaf: Node, index: nat, path: seq<Node>) returns (r: Option<Node>)
    ensures r == RootFrom(pair, leaf, index, path)
  {
    var current, pos := leaf, index;
    for k := 0 to |path|
      invariant RootFrom(pair, current, pos, path[k..]) == RootFrom(pair, leaf, index, path)
    {
      assert path[k..][0] == path[k] && path[k..][1..] == path[k + 1..];
      if |path[k]| != NODE_SIZE {
        return None;
      }
      current := Join(pair, current, pos, path[k]);
      pos := pos / 2;
    }
    assert path[|path|..] == [];
    return Some(current);
  }

  predicate NodeSized(path: seq<Node>) {
    forall k :: 0 <= k < |path| ==> |path[k]| == NODE_SIZE
  }

  /** The last sibling is joined at the position reached by halving once per earlier sibling. */
  lemma {:induction false} RootFromSnoc(pair: PairHash, leaf: Node, pos: nat, path: seq<Node>, last: Node)
    requires NodeSized(path) && |last| == NODE_SIZE
    ensures RootFrom(pair, leaf, pos, path).Some?
    ensures RootFrom(pair, leaf, pos, path + [last])
         == Some(Join(pair, RootFrom(pair, leaf, pos, path).value, Ancestor(pos, |path|), last))
    decreases |path|
  {
    if path == [] {
      assert path + [last] == [last];
    } else {
      assert path[0] in path;
      assert (path + [last])[1..] == path[1..] + [last];
      RootFromSnoc(pair, Join(pair, leaf, pos, path[0]), pos / 2, path[1..], last);
    }
  }

  /** Only the low bits of the position matter to a path of that length. */
  lemma {:induction false} RootFromLowBits(pair: PairHash, leaf: Node, pos: nat, d: nat, path: seq<Node>)
    requires |path| <= d
    ensures RootFrom(pair, leaf, pos + Pow2(d), path) == RootFrom(pair, leaf, pos, path)
    decreases |path|
  {
    if path != [] {
      assert (pos + Pow2(d)) / 2 == pos / 2 + Pow2(d - 1) && (pos + Pow2(d)) % 2 == pos % 2;
      RootFromLowBits(pair, Join(pair, leaf, pos, path[0]), pos / 2, d - 1, path[1..]);
    }
  }

  /** Within the first 2^d positions, halving d times gives 0; one block further on, 1. */
  lemma {:induction false} AncestorOfBlock(pos: nat, d: nat)
    requires pos < Pow2(d)
    ensures Ancestor(pos, d) == 0 && Ancestor(pos + Pow2(d), d) == 1
  {
    if d > 0 {
      assert (pos + Pow2(d)) / 2 == pos / 2 + Pow2(d - 1);
      AncestorOfBlock(pos / 2, d - 1);
    }
  }

  ghost predicate PairSized(pair: PairHash) {
    forall a, b :: |pair(a, b)| == NODE_SIZE
  }

  lemma {:induction false} RootSized(pair: PairHash, leaves: seq<Node>, d: nat)
    requires |leaves| == Pow2(d) && NodeSized(leaves) && PairSized(pair)
    ensures |Root(pair, leaves, d)| == NODE_SIZE
  {
  }

  /** One level up from either half. */
  lemma ExtendPath(pair: PairHash, leaf: Node, pos: nat, d: nat, path: seq<Node>, sub: Node, sibling: Node)
    requires NodeSized(path) && |path| == d && |sibling| == NODE_SIZE && pos < Pow2(d)
    requires RootFrom(pair, leaf, pos, path) == Some(sub)
    ensures RootFrom(pair, leaf, pos, path + [sibling]) == Some(pair(sub, sibling))
    ensures RootFrom(pair, leaf, pos + Pow2(d), path + [sibling]) == Some(pair(sibling, sub))
  {
    AncestorOfBlock(pos, d);
    RootFromSnoc(pair, leaf, pos, path, sibling);
    RootFromLowBits(pair, leaf, pos, d, path);
    RootFromSnoc(pair, leaf, pos + Pow2(d), path, sibling);
  }

  lemma {:induction false} PathSized(pair: PairHash, leaves: seq<Node>, d: nat, i: nat)
    requires |leaves| == Pow2(d) && i < |leaves| && NodeSized(leaves) && PairSized(pair)
    ensures NodeSized(Path(pair, leaves, d, i))
  {
    if d > 0 {
      var half := Pow2(d - 1);
      var left, right := leaves[..half], leaves[half..];
      RootSized(pair, left, d - 1);
      RootSized(pair, right, d - 1);
      if i < half {
        PathSized(pair, left, d - 1, i);
      } else {
        PathSized(pair, right, d - 1, i - half);
      }
    }
  }

  lemma {:induction false} PathReaches(pair: PairHash, leaves: seq<Node>, d: nat, i: nat, path: seq<Node>, root: Node)
    requires |leaves| == Pow2(d) && i < |leaves| && NodeSized(leaves) && PairSized(pair)
    requires path == Path(pair, leaves, d, i) && root == Root(pair, leaves, d)
    ensures RootFrom(pair, leaves[i], i, path) == Some(root)
    decreases d, 0
  {
    if d > 0 {
      var half := Pow2(d - 1);
      if i < half {
        PathReachesLeft(pair, leaves[..half], leaves[half..], d - 1, i);
      } else {
        PathReachesRight(pair, leaves[..half], leaves[half..], d - 1, i - half);
      }
    }
  }

  lemma {:induction false} PathReachesLeft(pair: PairHash, left: seq<Node>, right: seq<Node>, d: nat, i: nat)
    requires |left| == |right| == Pow2(d) && i < |left| && NodeSized(left) && NodeSized(right) && PairSized(pair)
    ensures RootFrom(pair, left[i], i, Path(pair, left, d, i) + [Root(pair, right, d)])
         == Some(pair(Root(pair, left, d), Root(pair, right, d)))
    decreases d, 1
  {
    var l, r, sub := Root(pair, left, d), Root(pair, right, d), Path(pair, left, d, i);
    RootSized(pair, right, d);
    PathSized(pair, left, d, i);
    PathReaches(pair, left, d, i, sub, l);
    ExtendPath(pair, left[i], i, d, sub, l, r);
  }

  lemma {:induction false} PathReachesRight(pair: PairHash, left: seq<Node>, right: seq<Node>, d: nat, i: nat)
    requires |left| == |right| == Pow2(d) && i < |right| && NodeSized(left) && NodeSized(right) && PairSized(pair)
    ensures RootFrom(pair, right[i], i + Pow2(d), Path(pair, right, d, i) + [Root(pair, left, d)])
         == Some(pair(Root(pair, left, d), Root(pair, right, d)))
    decreases d, 1
  {
    var l, r, sub := Root(pair, left, d), Root(pair, right, d), Path(pair, right, d, i);
    RootSized(pair, left, d);
    PathSized(pair, right, d, i);
    PathReaches(pair, right, d, i, sub, r);
    ExtendPath(pair, right[i], i, d, sub, r, l);
  }

  /** A tree's own path recomputes its root. */
  lemma {:induction false} PathIsComplete(pair: PairHash, leaves: seq<Node>, d: nat, i: nat)
    requires |leaves| == Pow2(d) && i < |leaves| && NodeSized(leaves) && PairSized(pair)
    ensures RootFrom(pair, leaves[i], i, Path(pair, leaves, d, i)) == Some(Root(pair, leaves, d))
  {
    PathReaches(pair, leaves, d, i, Path(pair, leaves, d, i), Root(pair, leaves, d));
  }

  // ----- paths are binding

  /** The two inputs of the pair hash at one step, in order. */
  function Inputs(node: Node, pos: nat, sibling: Node): (Node, Node) {
    if pos % 2 == 0 then (node, sibling) else (sibling, node)
  }

  /** The inputs at the first step where two different nodes are joined into the same one. */
  function Meeting(pair: PairHash, leaf: Node, other: Node, pos: nat, path: seq<Node>, otherPath: seq<Node>)
    : ((Node, Node), (Node, Node))
    requires |path| == |otherPath| > 0
    decreases |path|
  {
    var up, otherUp := Join(pair, leaf, pos, path[0]), Join(pair, other, pos, otherPath[0]);
    if |path| == 1 || up == otherUp then
      (Inputs(leaf, pos, path[0]), Inputs(other, pos, otherPath[0]))
    else
      Meeting(pair, up, otherUp, pos / 2, path[1..], otherPath[1..])
  }

  predicate PairCollides(pair: PairHash, c: ((Node, Node), (Node, Node))) {
    c.0 != c.1 && pair(c.0.0, c.0.1) == pair(c.1.0, c.1.1)
  }

  /** Main result: two paths of equal length that lead from the same position to the same root start from
      the same leaf hash, or exhibit a collision of the pair hash. */
  lemma {:induction false} PathIsBinding(pair: PairHash, leaf: Node, other: Node, pos: nat, path: seq<Node>, otherPath: seq<Node>)
    requires |path| == |otherPath| && leaf != other
    requires RootFrom(pair, leaf, pos, path).Some? && RootFrom(pair, leaf, pos, path) == RootFrom(pair, other, pos, otherPath)
    ensures |path| > 0 && PairCollides(pair, Meeting(pair, leaf, other, pos, path, otherPath))
    decreases |path|
  {
    var up, otherUp := Join(pair, leaf, pos, path[0]), Join(pair, other, pos, otherPath[0]);
    if up != otherUp {
      PathIsBinding(pair, up, otherUp, pos / 2, path[1..], otherPath[1..]);
    }
  }
}
