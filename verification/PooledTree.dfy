/** The erasured namespaced Merkle tree (pkg/wrapper/nmt_wrapper.go) and its pooled form, which keeps all
    leaves in one reused buffer (pkg/wrapper/buffered_tree.go). */
module PooledTree {
  import opened Basics

  const SHARE_SIZE := 512
  const NAMESPACE_SIZE := 29
  const ENTRY_SIZE := SHARE_SIZE + NAMESPACE_SIZE

  type Bytes = seq<Byte>

  /** The namespace of parity shares: 29 bytes, all 0xFF. */
  function ParityNamespace(): (n: Bytes)
    ensures |n| == NAMESPACE_SIZE
  {
    seq(NAMESPACE_SIZE, _ => 255)
  }

  /** Whether the underlying tree accepts a leaf after the leaves it holds. */
  type Acceptance = (seq<Bytes>, Bytes) -> bool

  /** One use of a tree: the square's width, the row or column, and the leaves so far. */
  datatype Use = Use(squareSize: nat, axisIndex: nat, leaves: seq<Bytes>)

  predicate QuadrantZero(use: Use) {
    |use.leaves| < use.squareSize && use.axisIndex < use.squareSize
  }

  /** The leaf for a share: its namespace in the original quadrant, the parity namespace elsewhere, then
      the share. */
  function Leaf(use: Use, data: Bytes): Bytes
    requires |data| >= NAMESPACE_SIZE
  {
    (if QuadrantZero(use) then data[..NAMESPACE_SIZE] else ParityNamespace()) + data
  }

  predicate PushOk(accept: Acceptance, use: Use, data: Bytes) {
    && use.axisIndex + 1 <= 2 * use.squareSize && |use.leaves| + 1 <= 2 * use.squareSize
    && |data| >= NAMESPACE_SIZE
    && accept(use.leaves, Leaf(use, data))
  }

  function Pushed(accept: Acceptance, use: Use, data: Bytes): Use {
    if PushOk(accept, use, data) then use.(leaves := use.leaves + [Leaf(use, data)]) else use
  }

  // ----- the plain wrapper

  class FreshTree {
    const accept: Acceptance
    const squareSize: nat
    const axisIndex: nat
    var shareIndex: nat
    var leaves: seq<Bytes>

    ghost predicate Valid()
      reads this
    {
      shareIndex == |leaves|
    }

    ghost function Now(): Use
      reads this
    {
      Use(squareSize, axisIndex, leaves)
    }

    constructor (accept: Acceptance, squareSize: nat, axisIndex: nat)
      requires squareSize > 0
      ensures Valid() && this.accept == accept && Now() == Use(squareSize, axisIndex, [])
    {
      this.accept := accept;
      this.squareSize := squareSize;
      this.axisIndex := axisIndex;
      shareIndex := 0;
      leaves := [];
    }

    method Push(data: Bytes) returns (ok: bool)
      requires Valid()
      modifies this
      ensures Valid()
      ensures ok == PushOk(accept, old(Now()), data) && Now() == Pushed(accept, old(Now()), data)
    {
      if axisIndex + 1 > 2 * squareSize || shareIndex + 1 > 2 * squareSize {
        return false;
      }
      if |data| < NAMESPACE_SIZE {
        return false;
      }
      var inOriginal := shareIndex < squareSize && axisIndex < squareSize;
      var leaf := (if inOriginal then data[..NAMESPACE_SIZE] else ParityNamespace()) + data;
      if !accept(leaves, leaf) {
        return false;
      }
      leaves := leaves + [leaf];
      shareIndex := shareIndex + 1;
      return true;
    }
  }

  // ----- the pooled tree

  /** A slice of the buffer that the underlying tree holds as a leaf. */
  datatype View = View(offset: nat, length: nat)

  class BufferTree {
    const accept: Acceptance
    var squareSize: nat
    var maxSquareSize: nat
    var axisIndex: nat
    var shareIndex: nat
    var views: seq<View>
    var buffer: array<Byte>

    /** The buffer has room for two entries per unit of the largest square seen. */
    ghost predicate Sized()
      reads this
    {
      squareSize <= maxSquareSize && buffer.Length == 2 * maxSquareSize * ENTRY_SIZE
    }

    /** Leaf `i` lies in entry `i` of the buffer. */
    ghost predicate Valid()
      reads this
    {
      && Sized()
      && shareIndex == |views| <= 2 * maxSquareSize
      && forall i :: 0 <= i < |views| ==> views[i].offset == i * ENTRY_SIZE && views[i].length <= ENTRY_SIZE
    }

    function Stored(i: nat): Bytes
      requires Valid() && i < |views|
      reads this, buffer
    {
      buffer[views[i].offset..views[i].offset + views[i].length]
    }

    /** The leaves as the underlying tree sees them through its slices. */
    function Leaves(): seq<Bytes>
      requires Valid()
      reads this, buffer
    {
      seq(|views|, i requires 0 <= i < |views| && Valid() reads this, buffer => Stored(i))
    }

    ghost function Now(): Use
      requires Valid()
      reads this, buffer
    {
      Use(squareSize, axisIndex, Leaves())
    }

    constructor (accept: Acceptance, squareSize: nat)
      ensures Valid() && fresh(buffer) && this.accept == accept && Now() == Use(squareSize, 0, [])
    {
      this.accept := accept;
      this.squareSize := squareSize;
      maxSquareSize := squareSize;
      axisIndex := 0;
      shareIndex := 0;
      views := [];
      buffer := new Byte[2 * squareSize * ENTRY_SIZE];
    }

    /** Changes the width; a larger buffer replaces the old one only when the width is a new maximum. */
    method Resize(size: nat)
      requires Sized()
      modifies this
      ensures Sized() && squareSize == size
      ensures buffer == old(buffer) || fresh(buffer)
      ensures size <= old(maxSquareSize) ==> buffer == old(buffer)
    {
      if squareSize != size {
        squareSize := size;
        if size > maxSquareSize {
          buffer := new Byte[2 * size * ENTRY_SIZE];
          maxSquareSize := size;
        }
      }
    }

    /** Forgets the leaves of the previous use. */
    method Reset(axis: nat)
      requires Sized()
      modifies this
      ensures Valid() && buffer == old(buffer) && squareSize == old(squareSize)
      ensures Now() == Use(squareSize, axis, [])
    {
      axisIndex := axis;
      shareIndex := 0;
      views := [];
    }

    /** Takes a tree of any history into a new use, as the pool's constructor does. */
    method Reuse(size: nat, axis: nat)
      requires Sized()
      modifies this
      ensures Valid() && Now() == Use(size, axis, [])
      ensures buffer == old(buffer) || fresh(buffer)
    {
      Resize(size);
      Reset(axis);
    }

    /** Copies bytes into the buffer, touching nothing else. */
    method CopyTo(offset: nat, b: Bytes)
      requires offset + |b| <= buffer.Length
      modifies buffer
      ensures buffer[offset..offset + |b|] == b
      ensures forall k :: 0 <= k < buffer.Length && !(offset <= k < offset + |b|) ==> buffer[k] == old(buffer[k])
    {
      for n := 0 to |b|
        invariant forall k :: 0 <= k < n ==> buffer[offset + k] == b[k]
        invariant forall k :: 0 <= k < buffer.Length && !(offset <= k < offset + n) ==> buffer[k] == old(buffer[k])
      {
        buffer[offset + n] := b[n];
      }
    }

    /** Writes namespace and share into the next entry; earlier leaves keep their bytes. */
    method FillEntry(prefix: Bytes, data: Bytes)
      requires Valid() && |views| < 2 * maxSquareSize && |prefix| == NAMESPACE_SIZE && |data| <= SHARE_SIZE
      modifies buffer
      ensures Valid() && Leaves() == old(Leaves())
      ensures var offset := |views| * ENTRY_SIZE;
        offset + ENTRY_SIZE <= buffer.Length && buffer[offset..offset + NAMESPACE_SIZE + |data|] == prefix + data
    {
      var offset := |views| * ENTRY_SIZE;
      CopyTo(offset + NAMESPACE_SIZE, data);
      CopyTo(offset, prefix);
      forall i | 0 <= i < |views| ensures Stored(i) == old(Stored(i)) {
        assert views[i].offset + views[i].length <= offset;
      }
    }

    /** Hands the filled entry to the underlying tree, which keeps the slice if it accepts it. */
    method Append(prefix: Bytes, data: Bytes) returns (ok: bool)
      requires Valid() && |views| < 2 * maxSquareSize && |prefix| == NAMESPACE_SIZE && |data| <= SHARE_SIZE
      modifies this`views, this`shareIndex, buffer
      ensures Valid() && ok == accept(old(Leaves()), prefix + data)
      ensures Leaves() == if ok then old(Leaves()) + [prefix + data] else old(Leaves())
    {
      FillEntry(prefix, data);
      var offset := shareIndex * ENTRY_SIZE;
      var leaves := Leaves();
      if !accept(leaves, buffer[offset..offset + NAMESPACE_SIZE + |data|]) {
        return false;
      }
      views := views + [View(offset, NAMESPACE_SIZE + |data|)];
      shareIndex := shareIndex + 1;
      assert Leaves() == leaves + [prefix + data];
      return true;
    }

    method Push(data: Bytes) returns (ok: bool)
      requires Valid()
      modifies this, buffer
      ensures Valid() && buffer == old(buffer)
      ensures ok == (|data| <= SHARE_SIZE && PushOk(accept, old(Now()), data))
      ensures Now() == if ok then Pushed(accept, old(Now()), data) else old(Now())
    {
      if axisIndex + 1 > 2 * squareSize || shareIndex + 1 > 2 * squareSize {
        return false;
      }
      if |data| < NAMESPACE_SIZE {
        return false;
      }
      if NAMESPACE_SIZE + |data| > ENTRY_SIZE {
        return false;
      }
      var inOriginal := shareIndex < squareSize && axisIndex < squareSize;
      ok := Append(if inOriginal then data[..NAMESPACE_SIZE] else ParityNamespace(), data);
    }
  }

  // ----- refinement

  /** A series of pushes on a pooled tree, on whatever its buffer held before. */
  method PushAll(tree: BufferTree, shares: seq<Bytes>)
    requires tree.Valid()
    modifies tree, tree.buffer
    ensures tree.Valid() && tree.Now() == PooledRun(tree.accept, old(tree.Now()), shares)
  {
    for i := 0 to |shares|
      invariant tree.Valid() && tree.buffer == old(tree.buffer)
      invariant tree.Now() == PooledRun(tree.accept, old(tree.Now()), shares[..i])
    {
      assert shares[..i + 1][..i] == shares[..i];
      var _ := tree.Push(shares[i]);
    }
    assert shares[..|shares|] == shares;
  }

  /** A series of pushes on the plain wrapper. */
  function FreshRun(accept: Acceptance, use: Use, shares: seq<Bytes>): Use {
    if shares == [] then use else Pushed(accept, FreshRun(accept, use, shares[..|shares| - 1]), shares[|shares| - 1])
  }

  predicate PooledPushOk(accept: Acceptance, use: Use, data: Bytes) {
    |data| <= SHARE_SIZE && PushOk(accept, use, data)
  }

  /** The same series on a pooled tree. */
  function PooledRun(accept: Acceptance, use: Use, shares: seq<Bytes>): Use {
    if shares == [] then use else
      var before, data := PooledRun(accept, use, shares[..|shares| - 1]), shares[|shares| - 1];
      if PooledPushOk(accept, before, data) then Pushed(accept, before, data) else before
  }

  /** The two give the same verdict on every share and feed the underlying tree the same leaves. */
  predicate Agree(accept: Acceptance, use: Use, shares: seq<Bytes>) {
    && (forall i :: 0 <= i < |shares| ==>
          (PushOk(accept, FreshRun(accept, use, shares[..i]), shares[i]) <==>
           PooledPushOk(accept, PooledRun(accept, use, shares[..i]), shares[i])))
    && (forall i :: 0 <= i <= |shares| ==> FreshRun(accept, use, shares[..i]) == PooledRun(accept, use, shares[..i]))
  }

  /** The plain wrapper accepts a share too long for a buffer entry. */
  predicate TakesOversized(accept: Acceptance, use: Use, shares: seq<Bytes>, i: nat)
    requires i < |shares|
  {
    |shares[i]| > SHARE_SIZE && PushOk(accept, FreshRun(accept, use, shares[..i]), shares[i])
  }

  lemma {:induction false} RunsAgree(accept: Acceptance, use: Use, shares: seq<Bytes>, n: nat)
    requires n <= |shares| && forall i :: 0 <= i < n ==> !TakesOversized(accept, use, shares, i)
    ensures FreshRun(accept, use, shares[..n]) == PooledRun(accept, use, shares[..n])
  {
    if n > 0 {
      RunsAgree(accept, use, shares, n - 1);
      assert shares[..n][..n - 1] == shares[..n - 1];
      assert !TakesOversized(accept, use, shares, n - 1);
    }
  }

  /** Main result: the pooled tree behaves as the plain wrapper exactly as long as the plain wrapper takes
      no share longer than ShareSize, in particular whenever all shares are within it. */
  lemma {:induction false} PooledMatchesFreshExactly(accept: Acceptance, use: Use, shares: seq<Bytes>)
    ensures Agree(accept, use, shares) <==> forall i :: 0 <= i < |shares| ==> !TakesOversized(accept, use, shares, i)
    ensures (forall i :: 0 <= i < |shares| ==> |shares[i]| <= SHARE_SIZE) ==> Agree(accept, use, shares)
  {
    if forall i :: 0 <= i < |shares| ==> !TakesOversized(accept, use, shares, i) {
      forall n | 0 <= n <= |shares| ensures FreshRun(accept, use, shares[..n]) == PooledRun(accept, use, shares[..n]) {
        RunsAgree(accept, use, shares, n);
      }
      forall i | 0 <= i < |shares|
        ensures PushOk(accept, FreshRun(accept, use, shares[..i]), shares[i]) <==>
                PooledPushOk(accept, PooledRun(accept, use, shares[..i]), shares[i])
      {
        assert !TakesOversized(accept, use, shares, i);
        assert FreshRun(accept, use, shares[..i]) == PooledRun(accept, use, shares[..i]);
      }
    } else {
      var i :| 0 <= i < |shares| && TakesOversized(accept, use, shares, i);
      assert !PooledPushOk(accept, PooledRun(accept, use, shares[..i]), shares[i]);
    }
  }

  /** The two part on a share one byte too long: the plain wrapper takes it, the pooled tree refuses it. */
  lemma {:induction false} OversizedShareDiffers()
    ensures var accept: Acceptance := (_, _) => true;
      var use, share: Bytes := Use(1, 0, []), seq(SHARE_SIZE + 1, _ => 0);
      && PushOk(accept, use, share) && !PooledPushOk(accept, use, share)
      && FreshRun(accept, use, [share]) != PooledRun(accept, use, [share])
      && !Agree(accept, use, [share])
  {
    var accept: Acceptance := (_, _) => true;
    var use, share: Bytes := Use(1, 0, []), seq(SHARE_SIZE + 1, _ => 0);
    assert [share][..0] == [];
    assert |FreshRun(accept, use, [share]).leaves| == 1;
    assert FreshRun(accept, use, [share][..0]) == use && [share][..1] == [share];
  }
}
