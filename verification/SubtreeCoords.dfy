/** Subtree-root coordinates of a leaf range (pkg/inclusion/paths.go).

    A coordinate names a node of a balanced binary tree by its depth (the root has depth 0) and its
    position within that depth.  In a tree whose leaves lie at `maxDepth`, the node covers
    2^(maxDepth - depth) consecutive leaves.  `CalculateSubTreeRootCoordinates` walks a leaf range from
    left to right with six cursors; `Cover` is the plain greedy definition that the walk is proved to
    compute.  The lemmas about `Cover` say that it tiles the range exactly, that every piece is as large
    as it can be, that no other tiling has fewer pieces, and how many pieces there can be. */
module SubtreeCoords {
  import opened Arithmetic
  import opened BinaryLevels

  datatype Coord = Coord(depth: int, position: nat) {
    function Climb(): Coord {
      Coord(depth - 1, position / 2)
    }

    predicate CanClimbRight(minDepth: int) {
      position % 2 == 0 && depth > minDepth
    }
  }

  /** Number of leaves under `c`. */
  function Size(maxDepth: int, c: Coord): nat
    requires c.depth <= maxDepth
  {
    Pow2(maxDepth - c.depth)
  }

  /** The first leaf under `c`. */
  function First(maxDepth: int, c: Coord): nat
    requires c.depth <= maxDepth
  {
    Leftmost(c.position, maxDepth - c.depth)
  }

  /** A node that may serve as a subtree root: not above `minDepth`.  When `minDepth` lies below the
      leaves, only leaves may. */
  predicate Allowed(maxDepth: int, minDepth: int, c: Coord) {
    c.depth <= maxDepth && (minDepth <= c.depth || c.depth == maxDepth)
  }

  /** The pieces `cs`, in order, cover exactly the leaves from `s` up to `e`. */
  predicate Tiles(maxDepth: int, minDepth: int, cs: seq<Coord>, s: nat, e: nat) {
    if cs == [] then
      s == e
    else
      && Allowed(maxDepth, minDepth, cs[0])
      && First(maxDepth, cs[0]) == s
      && Tiles(maxDepth, minDepth, cs[1..], s + Size(maxDepth, cs[0]), e)
  }

  /** The greatest height at which a subtree may be rooted. */
  function MaxHeight(maxDepth: int, minDepth: int): nat {
    if minDepth <= maxDepth then maxDepth - minDepth else 0
  }

  /** The greatest height k, at most h, such that a subtree of height k starts at leaf `s` and has no
      more than `room` leaves. */
  function Height(s: nat, room: nat, h: nat): (k: nat)
    requires room >= 1
    ensures k <= h && Aligned(s, k) && Pow2(k) <= room
  {
    if h == 0 || (Aligned(s, h) && Pow2(h) <= room) then h else Height(s, room, h - 1)
  }

  /** Greedy cover: always take the largest subtree that starts at `s` and ends at or before `e`. */
  function Cover(maxDepth: int, minDepth: int, s: nat, e: nat): seq<Coord>
    decreases e - s
  {
    if s >= e then
      []
    else
      var k := Height(s, e - s, MaxHeight(maxDepth, minDepth));
      [Coord(maxDepth - k, Ancestor(s, k))] + Cover(maxDepth, minDepth, s + Pow2(k), e)
  }

  // ----- alignment

  /** The recursive definitions say what one expects of multiples of 2^k. */
  lemma {:induction false} AlignedMeaning(s: nat, p: nat, k: nat)
    ensures Leftmost(p, k) == p * Pow2(k)
    ensures Aligned(s, k) <==> s == Ancestor(s, k) * Pow2(k)
    ensures Ancestor(s, k) * Pow2(k) <= s < Ancestor(s, k) * Pow2(k) + Pow2(k)
    decreases k
  {
    if k > 0 {
      AlignedMeaning(s / 2, 2 * p, k - 1);
      DoubleProduct(p, Pow2(k - 1));
      DoubleProduct(Ancestor(s, k), Pow2(k - 1));
    }
  }

  lemma {:induction false} AlignedBelow(s: nat, j: nat, k: nat)
    requires k <= j && Aligned(s, j)
    ensures Aligned(s, k)
  {
    if k > 0 {
      AlignedBelow(s / 2, j - 1, k - 1);
    }
  }

  /** `Leftmost` and `Ancestor` undo each other. */
  lemma {:induction false} LeftmostAncestor(p: nat, k: nat)
    ensures Aligned(Leftmost(p, k), k) && Ancestor(Leftmost(p, k), k) == p
  {
    if k > 0 {
      LeftmostEven(p, k);
      LeftmostAncestor(p, k - 1);
    }
  }

  lemma {:induction false} LeftmostEven(p: nat, k: nat)
    requires k > 0
    ensures Leftmost(p, k) == 2 * Leftmost(p, k - 1)
    decreases k
  {
    if k > 1 {
      LeftmostEven(2 * p, k - 1);
    }
  }

  lemma {:induction false} AncestorLeftmost(s: nat, k: nat)
    requires Aligned(s, k)
    ensures Leftmost(Ancestor(s, k), k) == s
  {
    if k > 0 {
      AncestorLeftmost(s / 2, k - 1);
      LeftmostEven(Ancestor(s, k), k);
    }
  }

  /** A node at an odd position starts at a leaf that no larger subtree starts at. */
  lemma {:induction false} OddIsNotAligned(p: nat, k: nat)
    requires p % 2 == 1
    ensures !Aligned(Leftmost(p, k), k + 1)
  {
    if k > 0 {
      LeftmostEven(p, k);
      OddIsNotAligned(p, k - 1);
    }
  }

  /** Two different multiples of 2^k differ by at least 2^k. */
  lemma {:induction false} AlignedAreFar(x: nat, y: nat, k: nat)
    requires Aligned(x, k) && Aligned(y, k) && y < x
    ensures y + Pow2(k) <= x
  {
    if k > 0 {
      AlignedAreFar(x / 2, y / 2, k - 1);
    }
  }

  lemma {:induction false} AlignedPlus(b: nat, j: nat, k: nat)
    requires Aligned(b, k) && k <= j
    ensures Aligned(b + Pow2(j), k)
  {
    if k > 0 {
      var half := Pow2(j - 1);
      AlignedPlus(b / 2, j - 1, k - 1);
      assert (b + 2 * half) / 2 == b / 2 + half && (b + 2 * half) % 2 == b % 2;
    }
  }

  /** Moving past an odd multiple of 2^k reaches a multiple of 2^(k+1). */
  lemma {:induction false} OddStepAligns(s: nat, k: nat)
    requires Aligned(s, k) && !Aligned(s, k + 1)
    ensures Aligned(s + Pow2(k), k + 1)
  {
    if k > 0 {
      OddStepAligns(s / 2, k - 1);
    }
  }

  lemma {:induction false} Pow2Monotone(i: nat, j: nat)
    requires i <= j
    ensures Pow2(i) <= Pow2(j)
  {
    if i < j {
      Pow2Monotone(i, j - 1);
    }
  }

  /** `Height` is fixed by one step of look-ahead: the next power fails to divide, or does not fit. */
  lemma {:induction false} HeightIs(s: nat, room: nat, h: nat, k: nat)
    requires room >= 1 && k <= h
    requires Aligned(s, k) && Pow2(k) <= room
    requires k == h || !Aligned(s, k + 1) || Pow2(k + 1) > room
    ensures Height(s, room, h) == k
  {
    if k < h {
      if Aligned(s, h) && Pow2(h) <= room {
        AlignedBelow(s, h, k + 1);
        Pow2Monotone(k + 1, h);
      } else {
        HeightIs(s, room, h - 1, k);
      }
    }
  }

  lemma {:induction false} HeightDominates(s: nat, room: nat, h: nat, k: nat)
    requires room >= 1 && k <= h && Aligned(s, k) && Pow2(k) <= room
    ensures k <= Height(s, room, h)
  {
    if k < h {
      HeightDominates(s, room, h - 1, k);
    }
  }

  // ----- the walk

  /** The walk's mutable cursors, as the loop leaves them between two iterations. */
  datatype Cursors = Cursors(coords: seq<Coord>, leaf: nat, node: Coord, lastNode: Coord, lastLeaf: nat, range: nat)

  function Begin(maxDepth: int, start: nat): Cursors {
    var node := Coord(maxDepth, start);
    Cursors([], start, node, node, start, 1)
  }

  function Reset(maxDepth: int, c: Cursors): Cursors {
    c.(lastNode := c.node, lastLeaf := c.leaf, node := Coord(maxDepth, c.leaf), range := 1)
  }

  /** One iteration that does not return, that is, one with `c.leaf + 1 != end`. */
  function Iterate(maxDepth: int, minDepth: int, end: nat, c: Cursors): Cursors {
    if c.leaf + 1 > end then
      Reset(maxDepth, c.(coords := c.coords + [c.lastNode], leaf := c.lastLeaf + 1))
    else if !c.node.CanClimbRight(minDepth) then
      Reset(maxDepth, c.(coords := c.coords + [c.node], leaf := c.leaf + 1))
    else
      c.(lastLeaf := c.leaf, lastNode := c.node, leaf := c.leaf + c.range,
         range := c.range * 2, node := c.node.Climb())
  }

  function Iterated(maxDepth: int, minDepth: int, start: nat, end: nat, n: nat): Cursors {
    if n == 0 then
      Begin(maxDepth, start)
    else
      Iterate(maxDepth, minDepth, end, Iterated(maxDepth, minDepth, start, end, n - 1))
  }

  /** The loop's invariant: `s` is the first leaf not yet covered, the node cursor roots a subtree that
      starts at `s`, and the leaf cursor is the last leaf of that subtree. */
  ghost predicate WalkInvariant(maxDepth: int, minDepth: int, start: nat, end: nat, c: Cursors, s: nat) {
    && start <= s < end
    && Allowed(maxDepth, minDepth, c.node)
    && c.range == Size(maxDepth, c.node)
    && First(maxDepth, c.node) == s
    && c.leaf == s + c.range - 1
    && c.coords + Cover(maxDepth, minDepth, s, end) == Cover(maxDepth, minDepth, start, end)
    && (c.range > 1 ==>
          && c.lastNode.depth == c.node.depth + 1
          && Allowed(maxDepth, minDepth, c.lastNode)
          && First(maxDepth, c.lastNode) == s
          && c.lastLeaf == s + Size(maxDepth, c.lastNode) - 1
          && c.lastLeaf + 1 < end)
  }

  lemma {:induction false} CoverStep(maxDepth: int, minDepth: int, s: nat, e: nat, k: nat)
    requires s < e && Height(s, e - s, MaxHeight(maxDepth, minDepth)) == k
    ensures Cover(maxDepth, minDepth, s, e) == [Coord(maxDepth - k, Ancestor(s, k))] + Cover(maxDepth, minDepth, s + Pow2(k), e)
    ensures |Cover(maxDepth, minDepth, s, e)| == 1 + |Cover(maxDepth, minDepth, s + Pow2(k), e)|
  {
  }

  lemma MovePiece(coords: seq<Coord>, node: Coord, rest: seq<Coord>, all: seq<Coord>)
    requires coords + ([node] + rest) == all
    ensures (coords + [node]) + rest == all
  {
    assert (coords + [node]) + rest == coords + ([node] + rest);
  }

  /** Recording a node of the right height moves the cover on by one piece. */
  lemma {:induction false} RecordPiece(maxDepth: int, minDepth: int, start: nat, end: nat, coords: seq<Coord>, node: Coord, s: nat)
    requires start <= s < end && Allowed(maxDepth, minDepth, node) && First(maxDepth, node) == s
    requires coords + Cover(maxDepth, minDepth, s, end) == Cover(maxDepth, minDepth, start, end)
    requires Height(s, end - s, MaxHeight(maxDepth, minDepth)) == maxDepth - node.depth
    ensures (coords + [node]) + Cover(maxDepth, minDepth, s + Size(maxDepth, node), end)
         == Cover(maxDepth, minDepth, start, end)
  {
    var k := maxDepth - node.depth;
    assert Ancestor(s, k) == node.position by {
      LeftmostAncestor(node.position, k);
    }
    CoverStep(maxDepth, minDepth, s, end, k);
    assert Coord(maxDepth - k, Ancestor(s, k)) == node;
    MovePiece(coords, node, Cover(maxDepth, minDepth, s + Pow2(k), end), Cover(maxDepth, minDepth, start, end));
  }

  /** A node that fits, while twice its size does not, has the greedy height. */
  lemma {:induction false} LastThatFits(maxDepth: int, minDepth: int, end: nat, node: Coord, s: nat)
    requires s < end && Allowed(maxDepth, minDepth, node) && First(maxDepth, node) == s
    requires s + Size(maxDepth, node) <= end < s + 2 * Size(maxDepth, node)
    ensures Height(s, end - s, MaxHeight(maxDepth, minDepth)) == maxDepth - node.depth
  {
    LeftmostAncestor(node.position, maxDepth - node.depth);
    HeightIs(s, end - s, MaxHeight(maxDepth, minDepth), maxDepth - node.depth);
  }

  /** A node the walk cannot climb from has the greedy height. */
  lemma {:induction false} CannotClimb(maxDepth: int, minDepth: int, end: nat, node: Coord, s: nat)
    requires s < end && Allowed(maxDepth, minDepth, node) && First(maxDepth, node) == s
    requires s + Size(maxDepth, node) <= end && !node.CanClimbRight(minDepth)
    ensures Height(s, end - s, MaxHeight(maxDepth, minDepth)) == maxDepth - node.depth
  {
    var k := maxDepth - node.depth;
    LeftmostAncestor(node.position, k);
    if node.position % 2 == 1 {
      OddIsNotAligned(node.position, k);
    }
    HeightIs(s, end - s, MaxHeight(maxDepth, minDepth), k);
  }

  /** After a piece was recorded the cursors start afresh at the next uncovered leaf. */
  lemma {:induction false} RestartKeepsInvariant(maxDepth: int, minDepth: int, start: nat, end: nat, c: Cursors, node: Coord, s: nat)
    requires start <= s < end && Allowed(maxDepth, minDepth, node) && First(maxDepth, node) == s
    requires c.coords + Cover(maxDepth, minDepth, s, end) == Cover(maxDepth, minDepth, start, end)
    requires Height(s, end - s, MaxHeight(maxDepth, minDepth)) == maxDepth - node.depth
    requires s + Size(maxDepth, node) < end
    ensures var t := s + Size(maxDepth, node);
      WalkInvariant(maxDepth, minDepth, start, end, Reset(maxDepth, c.(coords := c.coords + [node], leaf := t)), t)
  {
    RecordPiece(maxDepth, minDepth, start, end, c.coords, node, s);
  }

  lemma {:induction false} ClimbKeepsInvariant(maxDepth: int, minDepth: int, start: nat, end: nat, c: Cursors, s: nat)
    requires WalkInvariant(maxDepth, minDepth, start, end, c, s) && c.leaf + 1 < end && c.node.CanClimbRight(minDepth)
    ensures WalkInvariant(maxDepth, minDepth, start, end, Iterate(maxDepth, minDepth, end, c), s)
  {
  }

  /** The candidate does not fit: its left child is recorded. */
  lemma {:induction false} OvershootKeepsInvariant(maxDepth: int, minDepth: int, start: nat, end: nat, c: Cursors, s: nat)
    returns (t: nat)
    requires WalkInvariant(maxDepth, minDepth, start, end, c, s) && c.leaf + 1 > end
    ensures WalkInvariant(maxDepth, minDepth, start, end, Iterate(maxDepth, minDepth, end, c), t) && s < t
  {
    LastThatFits(maxDepth, minDepth, end, c.lastNode, s);
    RestartKeepsInvariant(maxDepth, minDepth, start, end, c, c.lastNode, s);
    t := s + Size(maxDepth, c.lastNode);
    assert Iterate(maxDepth, minDepth, end, c) == Reset(maxDepth, c.(coords := c.coords + [c.lastNode], leaf := t));
  }

  /** The candidate fits and cannot grow: it is recorded. */
  lemma {:induction false} RecordKeepsInvariant(maxDepth: int, minDepth: int, start: nat, end: nat, c: Cursors, s: nat)
    returns (t: nat)
    requires WalkInvariant(maxDepth, minDepth, start, end, c, s) && c.leaf + 1 < end && !c.node.CanClimbRight(minDepth)
    ensures WalkInvariant(maxDepth, minDepth, start, end, Iterate(maxDepth, minDepth, end, c), t) && s < t
  {
    CannotClimb(maxDepth, minDepth, end, c.node, s);
    RestartKeepsInvariant(maxDepth, minDepth, start, end, c, c.node, s);
    t := s + Size(maxDepth, c.node);
    assert Iterate(maxDepth, minDepth, end, c) == Reset(maxDepth, c.(coords := c.coords + [c.node], leaf := t));
  }

  /** One iteration keeps the invariant; it either moves on to a later uncovered leaf or climbs. */
  lemma {:induction false} IterateKeepsInvariant(maxDepth: int, minDepth: int, start: nat, end: nat, c: Cursors, s: nat)
    returns (t: nat)
    requires WalkInvariant(maxDepth, minDepth, start, end, c, s) && c.leaf + 1 != end
    ensures WalkInvariant(maxDepth, minDepth, start, end, Iterate(maxDepth, minDepth, end, c), t)
    ensures s < t || (s == t && c.leaf < end && c.leaf < Iterate(maxDepth, minDepth, end, c).leaf)
  {
    if c.leaf + 1 > end {
      t := OvershootKeepsInvariant(maxDepth, minDepth, start, end, c, s);
    } else if !c.node.CanClimbRight(minDepth) {
      t := RecordKeepsInvariant(maxDepth, minDepth, start, end, c, s);
    } else {
      ClimbKeepsInvariant(maxDepth, minDepth, start, end, c, s);
      t := s;
    }
  }

  /** The iteration that returns completes the cover. */
  lemma {:induction false} LastIteration(maxDepth: int, minDepth: int, start: nat, end: nat, c: Cursors, s: nat)
    requires WalkInvariant(maxDepth, minDepth, start, end, c, s) && c.leaf + 1 == end
    ensures c.coords + [c.node] == Cover(maxDepth, minDepth, start, end)
  {
    LastThatFits(maxDepth, minDepth, end, c.node, s);
    RecordPiece(maxDepth, minDepth, start, end, c.coords, c.node, s);
    assert Cover(maxDepth, minDepth, end, end) == [];
  }

  /** Main walk.  The source's comment also admits `start == end`; see `EmptyRangeNeverReturns`. */
  method CalculateSubTreeRootCoordinates(maxDepth: int, minDepth: int, start: nat, end: nat) returns (coords: seq<Coord>)
    requires start < end
    ensures coords == Cover(maxDepth, minDepth, start, end)
  {
    coords := [];
    var leafCursor: nat := start;
    var nodeCursor := Coord(maxDepth, start);
    var lastNodeCursor := nodeCursor;
    var lastLeafCursor: nat := leafCursor;
    var nodeRangeCursor: nat := 1;
    ghost var s: nat, n: nat := start, 0;
    while true
      invariant var c := Cursors(coords, leafCursor, nodeCursor, lastNodeCursor, lastLeafCursor, nodeRangeCursor);
        WalkInvariant(maxDepth, minDepth, start, end, c, s) && c == Iterated(maxDepth, minDepth, start, end, n)
      decreases end - s, end - leafCursor
    {
      ghost var c := Cursors(coords, leafCursor, nodeCursor, lastNodeCursor, lastLeafCursor, nodeRangeCursor);
      if leafCursor + 1 == end {
        LastIteration(maxDepth, minDepth, start, end, c, s);
        coords := coords + [nodeCursor];
        return;
      }
      s := IterateKeepsInvariant(maxDepth, minDepth, start, end, c, s);
      n := n + 1;
      if leafCursor + 1 > end {
        coords := coords + [lastNodeCursor];
        leafCursor := lastLeafCursor + 1;
        lastNodeCursor, lastLeafCursor := nodeCursor, leafCursor;
        nodeCursor, nodeRangeCursor := Coord(maxDepth, leafCursor), 1;
      } else if !nodeCursor.CanClimbRight(minDepth) {
        coords := coords + [nodeCursor];
        leafCursor := leafCursor + 1;
        lastNodeCursor, lastLeafCursor := nodeCursor, leafCursor;
        nodeCursor, nodeRangeCursor := Coord(maxDepth, leafCursor), 1;
      } else {
        lastLeafCursor, lastNodeCursor := leafCursor, nodeCursor;
        leafCursor := leafCursor + nodeRangeCursor;
        nodeRangeCursor := nodeRangeCursor * 2;
        nodeCursor := nodeCursor.Climb();
      }
    }
  }

  /** The walk returns only from an iteration that finds `leaf + 1 == end`.  On an empty (or reversed)
      range no iteration ever does, so the walk runs forever: `start < end` is exactly when it returns. */
  lemma {:induction false} EmptyRangeNeverReturns(maxDepth: int, minDepth: int, start: nat, end: nat, n: nat)
    requires end <= start
    ensures var c := Iterated(maxDepth, minDepth, start, end, n);
      c.leaf + 1 != end && c.leaf >= start && c.lastLeaf >= start && |c.coords| == n
  {
    if n > 0 {
      EmptyRangeNeverReturns(maxDepth, minDepth, start, end, n - 1);
    }
  }

  // ----- the cover tiles the range with maximal pieces

  lemma {:induction false} CoverTiles(maxDepth: int, minDepth: int, s: nat, e: nat)
    requires s <= e
    ensures Tiles(maxDepth, minDepth, Cover(maxDepth, minDepth, s, e), s, e)
    decreases e - s
  {
    if s < e {
      var k := Height(s, e - s, MaxHeight(maxDepth, minDepth));
      AncestorLeftmost(s, k);
      CoverTiles(maxDepth, minDepth, s + Pow2(k), e);
    }
  }

  /** Every piece is the largest allowed subtree that starts where it starts and ends within the range. */
  lemma {:induction false} PiecesAreMaximal(maxDepth: int, minDepth: int, s: nat, e: nat, i: nat, other: Coord)
    requires s <= e && i < |Cover(maxDepth, minDepth, s, e)|
    requires Allowed(maxDepth, minDepth, other)
    requires Cover(maxDepth, minDepth, s, e)[i].depth <= maxDepth
    requires First(maxDepth, other) == First(maxDepth, Cover(maxDepth, minDepth, s, e)[i])
    requires First(maxDepth, other) + Size(maxDepth, other) <= e
    ensures Size(maxDepth, other) <= Size(maxDepth, Cover(maxDepth, minDepth, s, e)[i])
    decreases e - s
  {
    var h := MaxHeight(maxDepth, minDepth);
    var k := Height(s, e - s, h);
    if i == 0 {
      AncestorLeftmost(s, k);
      LeftmostAncestor(other.position, maxDepth - other.depth);
      HeightDominates(s, e - s, h, maxDepth - other.depth);
      Pow2Monotone(maxDepth - other.depth, k);
    } else {
      PiecesAreMaximal(maxDepth, minDepth, s + Pow2(k), e, i - 1, other);
    }
  }

  // ----- no tiling has fewer pieces

  /** A piece that starts strictly inside an aligned block of 2^k leaves ends inside it. */
  lemma StaysInBlock(b: nat, k: nat, s: nat, j: nat)
    requires Aligned(b, k) && Aligned(s, j)
    requires b < s < b + Pow2(k)
    ensures s + Pow2(j) <= b + Pow2(k)
  {
    if j >= k {
      AlignedBelow(s, j, k);
      AlignedAreFar(s, b, k);
    } else {
      AlignedBelow(b, k, j);
      AlignedPlus(b, k, j);
      AlignedAreFar(b + Pow2(k), s, j);
    }
  }

  /** A tiling that starts inside an aligned block has a boundary where the block ends; it can be
      split there. */
  lemma {:induction false} SplitAtBlockEnd(maxDepth: int, minDepth: int, cs: seq<Coord>, b: nat, k: nat, s: nat, e: nat)
    returns (n: nat)
    requires Tiles(maxDepth, minDepth, cs, s, e)
    requires Aligned(b, k) && b + Pow2(k) <= e
    requires b < s <= b + Pow2(k)
    ensures n <= |cs| && Tiles(maxDepth, minDepth, cs[n..], b + Pow2(k), e)
    decreases |cs|
  {
    if s == b + Pow2(k) {
      n := 0;
      assert cs[0..] == cs;
    } else {
      LeftmostAncestor(cs[0].position, maxDepth - cs[0].depth);
      StaysInBlock(b, k, s, maxDepth - cs[0].depth);
      var m := SplitAtBlockEnd(maxDepth, minDepth, cs[1..], b, k, s + Size(maxDepth, cs[0]), e);
      n := m + 1;
      assert cs[1..][m..] == cs[n..];
    }
  }

  lemma {:induction false} TilingIsAscending(maxDepth: int, minDepth: int, cs: seq<Coord>, s: nat, e: nat)
    requires Tiles(maxDepth, minDepth, cs, s, e)
    ensures s <= e
  {
    if cs != [] {
      TilingIsAscending(maxDepth, minDepth, cs[1..], s + Size(maxDepth, cs[0]), e);
    }
  }

  /** Main result: any other tiling of the range by allowed subtrees has at least as many pieces. */
  lemma {:induction false} CoverIsFewest(maxDepth: int, minDepth: int, s: nat, e: nat, cs: seq<Coord>)
    requires Tiles(maxDepth, minDepth, cs, s, e)
    ensures |Cover(maxDepth, minDepth, s, e)| <= |cs|
    decreases e - s
  {
    TilingIsAscending(maxDepth, minDepth, cs, s, e);
    if s < e {
      var h := MaxHeight(maxDepth, minDepth);
      var k := Height(s, e - s, h);
      var j := maxDepth - cs[0].depth;
      TilingIsAscending(maxDepth, minDepth, cs[1..], s + Pow2(j), e);
      LeftmostAncestor(cs[0].position, j);
      HeightDominates(s, e - s, h, j);
      Pow2Monotone(j, k);
      var n := SplitAtBlockEnd(maxDepth, minDepth, cs[1..], s, k, s + Pow2(j), e);
      CoverIsFewest(maxDepth, minDepth, s + Pow2(k), e, cs[1..][n..]);
      CoverStep(maxDepth, minDepth, s, e, k);
    }
  }

  // ----- how many pieces

  /** Falling stretch: less than one aligned block is left, so the heights strictly fall. */
  lemma {:induction false} FallingCount(maxDepth: int, minDepth: int, s: nat, e: nat, j: nat)
    requires s <= e < s + Pow2(j) && Aligned(s, j) && j <= MaxHeight(maxDepth, minDepth)
    ensures |Cover(maxDepth, minDepth, s, e)| <= j
    decreases j
  {
    if s < e {
      AlignedBelow(s, j, j - 1);
      if Pow2(j - 1) > e - s {
        FallingCount(maxDepth, minDepth, s, e, j - 1);
      } else {
        HeightIs(s, e - s, MaxHeight(maxDepth, minDepth), j - 1);
        AlignedPlus(s, j - 1, j - 1);
        FallingCount(maxDepth, minDepth, s + Pow2(j - 1), e, j - 1);
      }
    }
  }

  /** Rising stretch: from a multiple of 2^j the heights strictly rise until they reach the top height
      or the range runs out. */
  lemma {:induction false} RisingCount(maxDepth: int, minDepth: int, s: nat, e: nat, j: nat, full: int)
    requires s <= e && Aligned(s, j) && j <= MaxHeight(maxDepth, minDepth)
    requires full == (e - s) / Pow2(MaxHeight(maxDepth, minDepth))
    ensures |Cover(maxDepth, minDepth, s, e)| <= (MaxHeight(maxDepth, minDepth) - j) + full + MaxHeight(maxDepth, minDepth)
    decreases e - s, MaxHeight(maxDepth, minDepth) - j
  {
    var h := MaxHeight(maxDepth, minDepth);
    if e - s < Pow2(j) {
      DivMonotone(0, e - s, Pow2(h));
      FallingCount(maxDepth, minDepth, s, e, j);
    } else if j == h {
      HeightIs(s, e - s, h, h);
      AlignedPlus(s, h, h);
      DivStep(e - s, Pow2(h));
      RisingCount(maxDepth, minDepth, s + Pow2(h), e, h, full - 1);
      CoverStep(maxDepth, minDepth, s, e, h);
    } else if Aligned(s, j + 1) {
      RisingCount(maxDepth, minDepth, s, e, j + 1, full);
    } else {
      HeightIs(s, e - s, h, j);
      OddStepAligns(s, j);
      var rest := (e - (s + Pow2(j))) / Pow2(h);
      DivMonotone(e - (s + Pow2(j)), e - s, Pow2(h));
      RisingCount(maxDepth, minDepth, s + Pow2(j), e, j + 1, rest);
      CoverStep(maxDepth, minDepth, s, e, j);
    }
  }

  /** Main result: at most (end - start) / 2^h + 2h pieces, h being the greatest allowed height. */
  lemma CoverCount(maxDepth: int, minDepth: int, start: nat, end: nat)
    requires start <= end
    ensures var h := MaxHeight(maxDepth, minDepth);
      |Cover(maxDepth, minDepth, start, end)| <= (end - start) / Pow2(h) + 2 * h
  {
    RisingCount(maxDepth, minDepth, start, end, 0, (end - start) / Pow2(MaxHeight(maxDepth, minDepth)));
  }
}
