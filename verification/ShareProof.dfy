/** Inclusion proofs of a range of shares (pkg/proof/proof.go, share_proof.go, row_proof.go). */
module ShareProof {
  import opened Arithmetic
  import opened Basics
  import opened PooledTree

  /** The namespaced Merkle tree library: acceptance of leaves, root, range proof, and inclusion check of
      raw shares under a namespace. */
  datatype Nmt = Nmt(
    accept: Acceptance,
    root: seq<Bytes> -> Bytes,
    prove: (seq<Bytes>, nat, nat) -> seq<Bytes>,
    verify: (Bytes, Bytes, int, int, seq<Bytes>, seq<Bytes>) -> bool)

  /** A path in the binary Merkle tree, with the position it claims. */
  datatype Path = Path(total: int, index: int, leafHash: Bytes, aunts: seq<Bytes>)

  /** The binary Merkle tree library. */
  datatype Merkle = Merkle(
    root: seq<Bytes> -> Bytes,
    prove: (seq<Bytes>, nat) -> Path,
    verify: (Bytes, Bytes, Path) -> bool)

  datatype NmtProof = NmtProof(start: int, end: int, nodes: seq<Bytes>)

  datatype RowProof = RowProof(rowRoots: seq<Bytes>, proofs: seq<Path>, startRow: nat, endRow: nat)

  /** `data` None stands for a nil slice. */
  datatype Proof = Proof(data: Option<seq<Bytes>>, shareProofs: seq<NmtProof>, id: Bytes, version: nat, rowProof: RowProof) {
    function Shares(): seq<Bytes> {
      if data.None? then [] else data.value
    }
  }

  /** A namespace is a version byte followed by an id. */
  datatype Namespace = Namespace(version: Byte, id: Bytes) {
    function ToBytes(): Bytes {
      [version] + id
    }
  }

  /** An extended data square of width 2k with the roots of its rows and columns. */
  datatype Square = Square(k: nat, rows: seq<seq<Bytes>>, rowRoots: seq<Bytes>, colRoots: seq<Bytes>)

  // ----- rows of a range

  /** The leaves the tree of row `axis` holds after the row's shares were pushed. */
  function RowLeaves(nmt: Nmt, k: nat, axis: nat, row: seq<Bytes>): seq<Bytes> {
    FreshRun(nmt.accept, Use(k, axis, []), row).leaves
  }

  /** What a range touches: the first row, the number of rows, the first leaf in the first row and the last
      leaf in the last. */
  datatype Extent = Extent(first: nat, n: nat, startLeaf: nat, endLeaf: nat)

  function ExtentOf(k: nat, start: nat, end: nat): Extent
    requires k > 0 && start < end
  {
    DivMonotone(start, end - 1, k);
    Extent(start / k, (end - 1) / k - start / k + 1, start % k, (end - 1) % k)
  }

  /** First leaf, and the one past the last, that a proof covers in the i-th row of the range. */
  function SpanStart(x: Extent, i: nat): nat {
    if i > 0 then 0 else x.startLeaf
  }

  function SpanEnd(k: nat, x: Extent, i: nat): nat {
    if i + 1 != x.n then k else x.endLeaf + 1
  }

  // ----- the original square

  predicate Wide(rows: seq<seq<Bytes>>, k: nat) {
    forall i :: 0 <= i < |rows| ==> |rows[i]| >= k
  }

  /** The shares of the original square in order: the first k of each of the first `n` rows. */
  function Flattened(rows: seq<seq<Bytes>>, k: nat, n: nat): seq<Bytes>
    requires n <= |rows| && Wide(rows, k)
  {
    if n == 0 then [] else Flattened(rows, k, n - 1) + rows[n - 1][..k]
  }

  lemma {:induction false} FlattenedSize(rows: seq<seq<Bytes>>, k: nat, n: nat)
    requires n <= |rows| && Wide(rows, k)
    ensures |Flattened(rows, k, n)| == n * k
  {
    if n > 0 {
      FlattenedSize(rows, k, n - 1);
      assert n * k == (n - 1) * k + k;
    }
  }

  lemma SliceLeft<T>(a: seq<T>, b: seq<T>, x: nat, y: nat)
    requires x <= y <= |a|
    ensures (a + b)[x..y] == a[x..y]
  {
  }

  lemma SliceRight<T>(a: seq<T>, b: seq<T>, x: nat, y: nat)
    requires x <= y <= |b|
    ensures (a + b)[|a| + x..|a| + y] == b[x..y]
  {
  }

  /** A stretch of row `r` is the matching stretch of the square, counted from where the row begins. */
  lemma {:induction false} FlattenedRow(rows: seq<seq<Bytes>>, k: nat, n: nat, r: nat, lo: nat, hi: nat)
    requires r < n <= |rows| && Wide(rows, k) && lo <= hi <= k
    ensures var base := |Flattened(rows, k, r)|;
      base + hi <= |Flattened(rows, k, n)| && Flattened(rows, k, n)[base + lo..base + hi] == rows[r][lo..hi]
  {
    var front, last, base := Flattened(rows, k, n - 1), rows[n - 1][..k], |Flattened(rows, k, r)|;
    if r == n - 1 {
      SliceRight(front, last, lo, hi);
      assert last[lo..hi] == rows[r][lo..hi];
    } else {
      FlattenedRow(rows, k, n - 1, r, lo, hi);
      SliceLeft(front, last, base + lo, base + hi);
    }
  }

  // ----- creating the proof

  predicate SpansFit(k: nat, rows: seq<seq<Bytes>>, x: Extent) {
    |rows| == x.n && forall i :: 0 <= i < |rows| ==> SpanStart(x, i) <= SpanEnd(k, x, i) <= |rows[i]|
  }

  /** The shares of one row's span. */
  function Segment(k: nat, rows: seq<seq<Bytes>>, x: Extent, i: nat): seq<Bytes>
    requires SpansFit(k, rows, x) && i < |rows|
  {
    rows[i][SpanStart(x, i)..SpanEnd(k, x, i)]
  }

  /** Shares that the first `i` rows contribute. */
  function DataUpTo(k: nat, rows: seq<seq<Bytes>>, x: Extent, i: nat): seq<Bytes>
    requires SpansFit(k, rows, x) && i <= |rows|
  {
    if i == 0 then [] else DataUpTo(k, rows, x, i - 1) + Segment(k, rows, x, i - 1)
  }

  function RangeProof(nmt: Nmt, k: nat, rows: seq<seq<Bytes>>, x: Extent, i: nat): NmtProof
    requires i < |rows|
  {
    var lo, hi := SpanStart(x, i), SpanEnd(k, x, i);
    NmtProof(lo, hi, nmt.prove(RowLeaves(nmt, k, i, rows[i]), lo, hi))
  }

  function RangeProofs(nmt: Nmt, k: nat, rows: seq<seq<Bytes>>, x: Extent): (r: seq<NmtProof>)
    ensures |r| == |rows| && forall i :: 0 <= i < |rows| ==> r[i] == RangeProof(nmt, k, rows, x, i)
  {
    seq(|rows|, i requires 0 <= i < |rows| => RangeProof(nmt, k, rows, x, i))
  }

  /** Row `i` of the range can be rebuilt: every share is accepted and the root is the expected one. */
  predicate RowRebuilds(nmt: Nmt, k: nat, rows: seq<seq<Bytes>>, rowRoots: seq<Bytes>, i: nat)
    requires i < |rows| == |rowRoots|
  {
    AllAccepted(nmt, k, i, rows[i]) && nmt.root(RowLeaves(nmt, k, i, rows[i])) == rowRoots[i]
  }

  predicate AllRebuild(nmt: Nmt, k: nat, rows: seq<seq<Bytes>>, rowRoots: seq<Bytes>)
    requires |rows| == |rowRoots|
  {
    forall i :: 0 <= i < |rows| ==> RowRebuilds(nmt, k, rows, rowRoots, i)
  }

  /** Every share of the row is accepted in turn. */
  predicate AllAccepted(nmt: Nmt, k: nat, axis: nat, row: seq<Bytes>) {
    row == [] ||
      var front := row[..|row| - 1];
      AllAccepted(nmt, k, axis, front) &&
      PushOk(nmt.accept, FreshRun(nmt.accept, Use(k, axis, []), front), row[|row| - 1])
  }

  lemma {:induction false} PrefixAccepted(nmt: Nmt, k: nat, axis: nat, row: seq<Bytes>, c: nat)
    requires c <= |row| && AllAccepted(nmt, k, axis, row)
    ensures AllAccepted(nmt, k, axis, row[..c])
  {
    if c == |row| {
      assert row[..c] == row;
    } else {
      PrefixAccepted(nmt, k, axis, row[..|row| - 1], c);
      assert row[..|row| - 1][..c] == row[..c];
    }
  }

  /** Rebuilds the tree of one row. */
  method RebuildRow(nmt: Nmt, k: nat, axis: nat, row: seq<Bytes>) returns (ok: bool, leaves: seq<Bytes>)
    requires k > 0
    ensures ok <==> AllAccepted(nmt, k, axis, row)
    ensures ok ==> leaves == RowLeaves(nmt, k, axis, row)
  {
    var tree := new FreshTree(nmt.accept, k, axis);
    for c := 0 to |row|
      invariant tree.Valid() && fresh(tree) && tree.accept == nmt.accept
      invariant tree.Now() == FreshRun(nmt.accept, Use(k, axis, []), row[..c])
      invariant AllAccepted(nmt, k, axis, row[..c])
    {
      assert row[..c + 1][..c] == row[..c];
      ok := tree.Push(row[c]);
      if !ok {
        assert !AllAccepted(nmt, k, axis, row[..c + 1]);
        if AllAccepted(nmt, k, axis, row) {
          PrefixAccepted(nmt, k, axis, row, c + 1);
        }
        return false, [];
      }
    }
    assert row[..|row|] == row;
    return true, tree.leaves;
  }

  /** The proof for one row, and the shares it covers. */
  method ProveRow(nmt: Nmt, k: nat, rows: seq<seq<Bytes>>, rowRoots: seq<Bytes>, x: Extent, i: nat)
    returns (ok: bool, proof: NmtProof, segment: seq<Bytes>)
    requires k > 0 && i < |rows| == |rowRoots| && SpansFit(k, rows, x)
    ensures ok <==> RowRebuilds(nmt, k, rows, rowRoots, i)
    ensures ok ==> proof == RangeProof(nmt, k, rows, x, i)
    ensures segment == Segment(k, rows, x, i)
  {
    var leaves;
    ok, leaves := RebuildRow(nmt, k, i, rows[i]);
    ok := ok && nmt.root(leaves) == rowRoots[i];
    var lo, hi := x.startLeaf, x.endLeaf;
    if i > 0 {
      lo := 0;
    }
    if i != |rows| - 1 {
      hi := k - 1;
    }
    segment := rows[i][lo..hi + 1];
    proof := NmtProof(lo, hi + 1, nmt.prove(leaves, lo, hi + 1));
  }

  /** Proofs of the spans of the given rows, whose indices are counted from the first of them. */
  method CreateShareToRowRootProofs(nmt: Nmt, k: nat, rows: seq<seq<Bytes>>, rowRoots: seq<Bytes>, x: Extent)
    returns (ok: bool, proofs: seq<NmtProof>, data: seq<Bytes>)
    requires k > 0 && |rows| == |rowRoots| && SpansFit(k, rows, x)
    ensures ok <==> AllRebuild(nmt, k, rows, rowRoots)
    ensures ok ==> proofs == RangeProofs(nmt, k, rows, x)
    ensures ok ==> data == DataUpTo(k, rows, x, |rows|)
  {
    proofs, data := [], [];
    for i := 0 to |rows|
      invariant forall j :: 0 <= j < i ==> RowRebuilds(nmt, k, rows, rowRoots, j)
      invariant |proofs| == i && forall j :: 0 <= j < i ==> proofs[j] == RangeProof(nmt, k, rows, x, j)
      invariant data == DataUpTo(k, rows, x, i)
    {
      var proof, segment;
      ok, proof, segment := ProveRow(nmt, k, rows, rowRoots, x, i);
      if !ok {
        return false, [], [];
      }
      data := data + segment;
      proofs := proofs + [proof];
    }
    return true, proofs, data;
  }

  function RowPaths(m: Merkle, roots: seq<Bytes>, first: nat, n: nat): (r: seq<Path>)
    ensures |r| == n
  {
    seq(n, i requires 0 <= i < n => m.prove(roots, first + i))
  }

  predicate ShapedSquare(sq: Square) {
    && |sq.rows| == |sq.rowRoots| == 2 * sq.k
    && forall i :: 0 <= i < |sq.rows| ==> |sq.rows[i]| == 2 * sq.k
  }

  /** The extent lies in the original half of the square. */
  predicate Fits(sq: Square, x: Extent) {
    && ShapedSquare(sq) && x.n > 0 && x.first + x.n <= sq.k
    && x.startLeaf < sq.k && x.endLeaf < sq.k && (x.n == 1 ==> x.startLeaf <= x.endLeaf)
  }

  predicate ValidRange(sq: Square, start: nat, end: nat) {
    ShapedSquare(sq) && sq.k > 0 && start < end <= sq.k * sq.k
  }

  /** Every range inside the square has such an extent. */
  lemma {:induction false} RangeFits(sq: Square, start: nat, end: nat)
    requires ValidRange(sq, start, end)
    ensures Fits(sq, ExtentOf(sq.k, start, end))
  {
    var first, last := start / sq.k, (end - 1) / sq.k;
    if last >= sq.k {
      MulLe(sq.k, last, sq.k);
    }
    DivMonotone(start, end - 1, sq.k);
    if first == last {
      assert start - first * sq.k <= end - 1 - last * sq.k;
    }
  }

  /** The rows a range touches, and their roots. */
  function RangeRows(sq: Square, x: Extent): (rows: seq<seq<Bytes>>)
    requires Fits(sq, x)
    ensures SpansFit(sq.k, rows, x)
    ensures forall i :: 0 <= i < x.n ==> rows[i] == sq.rows[x.first + i]
  {
    sq.rows[x.first..x.first + x.n]
  }

  function RangeRoots(sq: Square, x: Extent): (roots: seq<Bytes>)
    requires Fits(sq, x)
    ensures |roots| == x.n && forall i :: 0 <= i < x.n ==> roots[i] == sq.rowRoots[x.first + i]
  {
    sq.rowRoots[x.first..x.first + x.n]
  }

  /** The shares that the proof of a range carries. */
  function HonestData(sq: Square, x: Extent): seq<Bytes>
    requires Fits(sq, x)
  {
    DataUpTo(sq.k, RangeRows(sq, x), x, x.n)
  }

  function HonestRowProof(m: Merkle, sq: Square, x: Extent): RowProof
    requires Fits(sq, x)
  {
    RowProof(RangeRoots(sq, x), RowPaths(m, sq.rowRoots + sq.colRoots, x.first, x.n), x.first, x.first + x.n - 1)
  }

  /** The proof an honest prover builds for a range. */
  function HonestProof(nmt: Nmt, m: Merkle, sq: Square, namespace: Namespace, x: Extent): Proof
    requires Fits(sq, x)
  {
    Proof(Some(HonestData(sq, x)), RangeProofs(nmt, sq.k, RangeRows(sq, x), x), namespace.id, namespace.version,
      HonestRowProof(m, sq, x))
  }

  /** The proof for the shares of a range, or an error if a row does not rebuild to its root. */
  method NewShareInclusionProof(nmt: Nmt, m: Merkle, sq: Square, namespace: Namespace, start: nat, end: nat)
    returns (ok: bool, proof: Proof)
    requires ValidRange(sq, start, end)
    ensures Fits(sq, ExtentOf(sq.k, start, end))
    ensures var x := ExtentOf(sq.k, start, end);
      && (ok <==> AllRebuild(nmt, sq.k, RangeRows(sq, x), RangeRoots(sq, x)))
      && (ok ==> proof == HonestProof(nmt, m, sq, namespace, x))
  {
    RangeFits(sq, start, end);
    var startRow, endRow := start / sq.k, (end - 1) / sq.k;
    var startLeaf, endLeaf := start % sq.k, (end - 1) % sq.k;
    ok, proof := ProveExtent(nmt, m, sq, namespace, Extent(startRow, endRow - startRow + 1, startLeaf, endLeaf));
  }

  method ProveExtent(nmt: Nmt, m: Merkle, sq: Square, namespace: Namespace, x: Extent) returns (ok: bool, proof: Proof)
    requires Fits(sq, x)
    ensures ok <==> AllRebuild(nmt, sq.k, RangeRows(sq, x), RangeRoots(sq, x))
    ensures ok ==> proof == HonestProof(nmt, m, sq, namespace, x)
  {
    var rowProofs := RowPaths(m, sq.rowRoots + sq.colRoots, x.first, x.n);
    var rowRoots := sq.rowRoots[x.first..x.first + x.n];
    var rows := sq.rows[x.first..x.first + x.n];
    var shareProofs, data;
    ok, shareProofs, data := CreateShareToRowRootProofs(nmt, sq.k, rows, rowRoots, x);
    proof := Proof(Some(data), shareProofs, namespace.id, namespace.version, RowProof(rowRoots, rowProofs, x.first, x.first + x.n - 1));
  }

  // ----- the data is the range

  /** Where the data of the first `i` rows of the range ends in the original square. */
  function Reach(sq: Square, x: Extent, i: nat): nat
    requires Fits(sq, x) && i <= x.n
  {
    if i == 0 then |Flattened(sq.rows, sq.k, x.first)| + x.startLeaf
    else |Flattened(sq.rows, sq.k, x.first + i - 1)| + SpanEnd(sq.k, x, i - 1)
  }

  /** A reach is also where the next row's span begins. */
  lemma {:induction false} ReachIsStart(sq: Square, x: Extent, i: nat)
    requires Fits(sq, x) && i < x.n
    ensures Reach(sq, x, i) == |Flattened(sq.rows, sq.k, x.first + i)| + SpanStart(x, i)
  {
    if i > 0 {
      assert |Flattened(sq.rows, sq.k, x.first + i)| == |Flattened(sq.rows, sq.k, x.first + i - 1)| + sq.k;
    }
  }

  /** The span of a row is the stretch of the square between two reaches. */
  lemma {:induction false} SegmentIsStretch(sq: Square, x: Extent, i: nat)
    requires Fits(sq, x) && i < x.n
    ensures Reach(sq, x, i) < Reach(sq, x, i + 1) <= |Flattened(sq.rows, sq.k, sq.k)|
    ensures Segment(sq.k, RangeRows(sq, x), x, i) == Flattened(sq.rows, sq.k, sq.k)[Reach(sq, x, i)..Reach(sq, x, i + 1)]
  {
    FlattenedRow(sq.rows, sq.k, sq.k, x.first + i, SpanStart(x, i), SpanEnd(sq.k, x, i));
    ReachIsStart(sq, x, i);
  }

  lemma SlicesJoin<T>(whole: seq<T>, a: nat, b: nat, c: nat)
    requires a <= b <= c <= |whole|
    ensures whole[a..b] + whole[b..c] == whole[a..c]
  {
  }

  lemma {:induction false} DataUpToReach(sq: Square, x: Extent, i: nat)
    requires Fits(sq, x) && i <= x.n
    ensures Reach(sq, x, 0) <= Reach(sq, x, i) <= |Flattened(sq.rows, sq.k, sq.k)|
    ensures DataUpTo(sq.k, RangeRows(sq, x), x, i) == Flattened(sq.rows, sq.k, sq.k)[Reach(sq, x, 0)..Reach(sq, x, i)]
  {
    if i == 0 {
      SegmentIsStretch(sq, x, 0);
    } else {
      DataUpToReach(sq, x, i - 1);
      SegmentIsStretch(sq, x, i - 1);
      SlicesJoin(Flattened(sq.rows, sq.k, sq.k), Reach(sq, x, 0), Reach(sq, x, i - 1), Reach(sq, x, i));
    }
  }

  lemma ExtentPositions(k: nat, start: nat, end: nat)
    requires k > 0 && start < end
    ensures var x := ExtentOf(k, start, end);
      start == x.first * k + x.startLeaf && end - 1 == (x.first + x.n - 1) * k + x.endLeaf
  {
  }

  lemma {:induction false} ReachOf(sq: Square, x: Extent, start: nat, end: nat)
    requires Fits(sq, x) && start == x.first * sq.k + x.startLeaf && end - 1 == (x.first + x.n - 1) * sq.k + x.endLeaf
    ensures Reach(sq, x, 0) == start && Reach(sq, x, x.n) == end
  {
    FlattenedSize(sq.rows, sq.k, x.first);
    FlattenedSize(sq.rows, sq.k, x.first + x.n - 1);
  }

  /** Main result: for every range inside the square, the proof carries the square's shares of that range,
      in order. */
  lemma {:induction false} DataIsTheRange(sq: Square, start: nat, end: nat)
    requires ValidRange(sq, start, end)
    ensures Fits(sq, ExtentOf(sq.k, start, end)) && end <= |Flattened(sq.rows, sq.k, sq.k)|
    ensures HonestData(sq, ExtentOf(sq.k, start, end)) == Flattened(sq.rows, sq.k, sq.k)[start..end]
  {
    RangeFits(sq, start, end);
    ExtentPositions(sq.k, start, end);
    var x := ExtentOf(sq.k, start, end);
    ReachOf(sq, x, start, end);
    DataUpToReach(sq, x, x.n);
  }

  // ----- checking a proof

  /** Shares covered by the first `i` proofs. */
  function Covered(proofs: seq<NmtProof>, i: nat): int
    requires i <= |proofs|
  {
    if i == 0 then 0 else Covered(proofs, i - 1) + proofs[i - 1].end - proofs[i - 1].start
  }

  predicate SpanOk(proof: NmtProof) {
    0 <= proof.start < proof.end
  }

  predicate SpansOk(proofs: seq<NmtProof>) {
    forall i :: 0 <= i < |proofs| ==> SpanOk(proofs[i])
  }

  lemma {:induction false} CoveredGrows(proofs: seq<NmtProof>, i: nat, j: nat)
    requires i <= j <= |proofs| && SpansOk(proofs)
    ensures 0 <= Covered(proofs, i) && Covered(proofs, i) + (j - i) <= Covered(proofs, j)
    decreases i + j
  {
    if i < j {
      CoveredGrows(proofs, i, j - 1);
    } else if i > 0 {
      CoveredGrows(proofs, i - 1, i - 1);
    }
  }

  predicate RowProofOk(m: Merkle, rp: RowProof, root: Bytes) {
    && rp.endRow - rp.startRow + 1 == |rp.rowRoots| > 0
    && |rp.proofs| == |rp.rowRoots|
    && forall i :: 0 <= i < |rp.proofs| ==> m.verify(root, rp.rowRoots[i], rp.proofs[i])
  }

  /** Row `i` has a positive span, and its own segment of the data exists and verifies against its root. */
  predicate SegmentVerifies(nmt: Nmt, proof: Proof, i: nat)
    requires i < |proof.shareProofs| <= |proof.rowProof.rowRoots| && proof.version < 256
  {
    var p, lo, hi := proof.shareProofs[i], Covered(proof.shareProofs, i), Covered(proof.shareProofs, i + 1);
    && SpanOk(p) && 0 <= lo <= hi <= |proof.Shares()|
    && nmt.verify(proof.rowProof.rowRoots[i], [proof.version] + proof.id, p.start, p.end, p.nodes, proof.Shares()[lo..hi])
  }

  predicate CountsOk(proof: Proof) {
    && proof.data.Some? && |proof.shareProofs| == |proof.rowProof.rowRoots|
    && SpansOk(proof.shareProofs)
    && Covered(proof.shareProofs, |proof.shareProofs|) == |proof.Shares()|
  }

  predicate SegmentsOk(nmt: Nmt, proof: Proof)
    requires |proof.shareProofs| <= |proof.rowProof.rowRoots|
  {
    proof.version < 256 && forall i :: 0 <= i < |proof.shareProofs| ==> SegmentVerifies(nmt, proof, i)
  }

  predicate Accepted(nmt: Nmt, m: Merkle, proof: Proof, root: Bytes) {
    CountsOk(proof) && RowProofOk(m, proof.rowProof, root) && SegmentsOk(nmt, proof)
  }

  method ValidateRowProof(m: Merkle, rp: RowProof, root: Bytes) returns (ok: bool)
    ensures ok <==> RowProofOk(m, rp, root)
  {
    if rp.endRow < rp.startRow {
      return false;
    }
    if rp.endRow - rp.startRow + 1 != |rp.rowRoots| || |rp.rowRoots| == 0 || |rp.proofs| != |rp.rowRoots| {
      return false;
    }
    for i := 0 to |rp.proofs|
      invariant forall j :: 0 <= j < i ==> m.verify(root, rp.rowRoots[j], rp.proofs[j])
    {
      if !m.verify(root, rp.rowRoots[i], rp.proofs[i]) {
        return false;
      }
    }
    return true;
  }

  /** The counting checks: spans are positive and add up to the number of shares. */
  method ValidateCounts(proof: Proof) returns (ok: bool)
    ensures ok <==> CountsOk(proof)
  {
    if proof.data.None? || |proof.shareProofs| != |proof.rowProof.rowRoots| {
      return false;
    }
    var total := 0;
    for i := 0 to |proof.shareProofs|
      invariant total == Covered(proof.shareProofs, i) <= |proof.Shares()|
      invariant forall j :: 0 <= j < i ==> SpanOk(proof.shareProofs[j])
    {
      var p := proof.shareProofs[i];
      if p.start < 0 || p.end <= p.start {
        return false;
      }
      total := total + p.end - p.start;
      if total > |proof.Shares()| {
        if SpansOk(proof.shareProofs) {
          CoveredGrows(proof.shareProofs, i + 1, |proof.shareProofs|);
        }
        return false;
      }
    }
    return total == |proof.Shares()|;
  }

  /** Checks the segment of row `i`, which begins at the cursor, and returns the shares it used. */
  method VerifySegment(nmt: Nmt, proof: Proof, i: nat, cursor: nat) returns (ok: bool, used: nat)
    requires i < |proof.shareProofs| <= |proof.rowProof.rowRoots| && proof.version < 256
    requires cursor == Covered(proof.shareProofs, i)
    ensures ok <==> SegmentVerifies(nmt, proof, i)
    ensures ok ==> cursor + used == Covered(proof.shareProofs, i + 1)
  {
    var p, data := proof.shareProofs[i], proof.Shares();
    if p.start < 0 || p.end <= p.start {
      return false, 0;
    }
    used := p.end - p.start;
    assert Covered(proof.shareProofs, i + 1) == cursor + used;
    if cursor + used > |data| {
      return false, 0;
    }
    ok := nmt.verify(proof.rowProof.rowRoots[i], [proof.version] + proof.id, p.start, p.end, p.nodes, data[cursor..cursor + used]);
  }

  /** Walks the data with a cursor, checking each row's segment.  Every share proof needs its row root. */
  method VerifyProof(nmt: Nmt, proof: Proof) returns (ok: bool)
    requires |proof.shareProofs| <= |proof.rowProof.rowRoots|
    ensures ok <==> SegmentsOk(nmt, proof)
  {
    if proof.version > 255 {
      return false;
    }
    var cursor: nat := 0;
    for i := 0 to |proof.shareProofs|
      invariant cursor == Covered(proof.shareProofs, i)
      invariant forall j :: 0 <= j < i ==> SegmentVerifies(nmt, proof, j)
    {
      var used;
      ok, used := VerifySegment(nmt, proof, i, cursor);
      if !ok {
        return false;
      }
      cursor := cursor + used;
    }
    return true;
  }

  method Validate(nmt: Nmt, m: Merkle, proof: Proof, root: Bytes) returns (ok: bool)
    ensures ok <==> Accepted(nmt, m, proof, root)
  {
    ok := ValidateCounts(proof);
    if !ok {
      return;
    }
    ok := ValidateRowProof(m, proof.rowProof, root);
    if !ok {
      return;
    }
    ok := VerifyProof(nmt, proof);
  }

  // ----- the row index that the prover uses

  /** Main result: within the original half the index of the axis changes no leaf, so counting rows from
      the start of the range rebuilds the same tree. */
  lemma {:induction false} RowIndexIsImmaterial(nmt: Nmt, k: nat, a: nat, b: nat, row: seq<Bytes>)
    requires a < k && b < k
    ensures RowLeaves(nmt, k, a, row) == RowLeaves(nmt, k, b, row)
    ensures AllAccepted(nmt, k, a, row) <==> AllAccepted(nmt, k, b, row)
  {
    var u, v := FreshRun(nmt.accept, Use(k, a, []), row), FreshRun(nmt.accept, Use(k, b, []), row);
    RunKeepsAxis(nmt, k, a, row);
    RunKeepsAxis(nmt, k, b, row);
    if row != [] {
      var front := row[..|row| - 1];
      RowIndexIsImmaterial(nmt, k, a, b, front);
      RunKeepsAxis(nmt, k, a, front);
      RunKeepsAxis(nmt, k, b, front);
    }
  }

  lemma {:induction false} RunKeepsAxis(nmt: Nmt, k: nat, axis: nat, row: seq<Bytes>)
    ensures var u := FreshRun(nmt.accept, Use(k, axis, []), row); u == Use(k, axis, u.leaves)
  {
    if row != [] {
      RunKeepsAxis(nmt, k, axis, row[..|row| - 1]);
    }
  }

  /** In the original quadrant a leaf is the share behind its own namespace. */
  lemma {:induction false} LeafAt(nmt: Nmt, k: nat, axis: nat, row: seq<Bytes>, c: nat)
    requires AllAccepted(nmt, k, axis, row) && c < |row| && c < k && axis < k
    ensures |RowLeaves(nmt, k, axis, row)| == |row| && |row[c]| >= NAMESPACE_SIZE
    ensures RowLeaves(nmt, k, axis, row)[c] == row[c][..NAMESPACE_SIZE] + row[c]
  {
    var n := |row| - 1;
    RunKeepsAxis(nmt, k, axis, row[..n]);
    AcceptedCount(nmt, k, axis, row[..n]);
    if c < n {
      LeafAt(nmt, k, axis, row[..n], c);
    }
  }

  lemma {:induction false} AcceptedCount(nmt: Nmt, k: nat, axis: nat, row: seq<Bytes>)
    requires AllAccepted(nmt, k, axis, row)
    ensures |RowLeaves(nmt, k, axis, row)| == |row|
  {
    if row != [] {
      AcceptedCount(nmt, k, axis, row[..|row| - 1]);
    }
  }

  // ----- honest proofs are accepted

  /** The range proof of the library holds for the shares it covers, under their namespace. */
  predicate NmtCompleteAt(nmt: Nmt, leaves: seq<Bytes>, lo: nat, hi: nat, namespace: Bytes, data: seq<Bytes>) {
    lo < hi <= |leaves| && |data| == hi - lo && (forall j :: 0 <= j < |data| ==> leaves[lo + j] == namespace + data[j]) ==>
      nmt.verify(nmt.root(leaves), namespace, lo, hi, nmt.prove(leaves, lo, hi), data)
  }

  ghost predicate NmtComplete(nmt: Nmt) {
    forall leaves, lo: nat, hi: nat, namespace, data :: NmtCompleteAt(nmt, leaves, lo, hi, namespace, data)
  }

  ghost predicate MerkleComplete(m: Merkle) {
    forall leaves: seq<Bytes>, i: nat :: i < |leaves| ==> m.verify(m.root(leaves), leaves[i], m.prove(leaves, i))
  }

  /** The roots are those of the trees built with each row's own index. */
  predicate Committed(nmt: Nmt, sq: Square) {
    && ShapedSquare(sq)
    && forall r :: 0 <= r < |sq.rows| ==>
         AllAccepted(nmt, sq.k, r, sq.rows[r]) && sq.rowRoots[r] == nmt.root(RowLeaves(nmt, sq.k, r, sq.rows[r]))
  }

  /** Main result: on a committed square proving never fails, although rows are counted from the start of
      the range. */
  lemma {:induction false} CommittedRebuilds(nmt: Nmt, sq: Square, x: Extent)
    requires Committed(nmt, sq) && Fits(sq, x)
    ensures AllRebuild(nmt, sq.k, RangeRows(sq, x), RangeRoots(sq, x))
  {
    var rows, roots := RangeRows(sq, x), RangeRoots(sq, x);
    forall i | 0 <= i < |rows| ensures RowRebuilds(nmt, sq.k, rows, roots, i) {
      RowIndexIsImmaterial(nmt, sq.k, i, x.first + i, rows[i]);
    }
  }

  /** The spans of the proof add up to the length of the data. */
  lemma {:induction false} CoveredIsLength(nmt: Nmt, k: nat, rows: seq<seq<Bytes>>, x: Extent, i: nat)
    requires SpansFit(k, rows, x) && i <= |rows|
    ensures Covered(RangeProofs(nmt, k, rows, x), i) == |DataUpTo(k, rows, x, i)|
  {
    if i > 0 {
      CoveredIsLength(nmt, k, rows, x, i - 1);
    }
  }

  lemma {:induction false} DataIsPrefix(k: nat, rows: seq<seq<Bytes>>, x: Extent, i: nat, j: nat)
    requires SpansFit(k, rows, x) && i <= j <= |rows|
    ensures |DataUpTo(k, rows, x, i)| <= |DataUpTo(k, rows, x, j)|
    ensures DataUpTo(k, rows, x, j)[..|DataUpTo(k, rows, x, i)|] == DataUpTo(k, rows, x, i)
  {
    if i < j {
      DataIsPrefix(k, rows, x, i, j - 1);
      SliceLeft(DataUpTo(k, rows, x, j - 1), Segment(k, rows, x, j - 1), 0, |DataUpTo(k, rows, x, i)|);
    }
  }

  lemma SliceOfPrefix<T>(whole: seq<T>, a: seq<T>, b: seq<T>)
    requires |a + b| <= |whole| && whole[..|a + b|] == a + b
    ensures whole[|a|..|a| + |b|] == b
  {
    assert whole[|a|..|a| + |b|] == whole[..|a + b|][|a|..];
  }

  /** Main result: the checker's cursor gives each row back exactly its own segment. */
  lemma {:induction false} CursorFindsSegment(nmt: Nmt, k: nat, rows: seq<seq<Bytes>>, x: Extent, i: nat)
    requires SpansFit(k, rows, x) && i < |rows|
    ensures var proofs, data := RangeProofs(nmt, k, rows, x), DataUpTo(k, rows, x, |rows|);
      && 0 <= Covered(proofs, i) <= Covered(proofs, i + 1) <= |data|
      && data[Covered(proofs, i)..Covered(proofs, i + 1)] == Segment(k, rows, x, i)
  {
    CoveredIsLength(nmt, k, rows, x, i);
    CoveredIsLength(nmt, k, rows, x, i + 1);
    DataIsPrefix(k, rows, x, i + 1, |rows|);
    SliceOfPrefix(DataUpTo(k, rows, x, |rows|), DataUpTo(k, rows, x, i), Segment(k, rows, x, i));
  }

  /** Main result: the counting checks pass for the proof of every range. */
  lemma {:induction false} HonestCounts(nmt: Nmt, m: Merkle, sq: Square, namespace: Namespace, x: Extent)
    requires Fits(sq, x)
    ensures CountsOk(HonestProof(nmt, m, sq, namespace, x))
  {
    var rows := RangeRows(sq, x);
    CoveredIsLength(nmt, sq.k, rows, x, x.n);
    DataIsPrefix(sq.k, rows, x, 1, x.n);
    assert DataUpTo(sq.k, rows, x, 1) == [] + Segment(sq.k, rows, x, 0);
  }

  /** The shares of the range all belong to the namespace. */
  predicate InNamespace(sq: Square, namespace: Namespace, x: Extent)
    requires Fits(sq, x)
  {
    var data := HonestData(sq, x);
    forall p :: 0 <= p < |data| ==> |data[p]| >= NAMESPACE_SIZE && data[p][..NAMESPACE_SIZE] == namespace.ToBytes()
  }

  lemma SliceIndex<T>(a: seq<T>, from: nat, to: nat, b: seq<T>, lo: nat, hi: nat, c: nat)
    requires from <= to <= |a| && lo <= hi <= |b| && a[from..to] == b[lo..hi] && lo <= c < hi
    ensures from + (c - lo) < |a| && b[c] == a[from + (c - lo)]
  {
    assert b[c] == b[lo..hi][c - lo];
    assert a[from..to][c - lo] == a[from + (c - lo)];
  }

  lemma {:induction false} SegmentInNamespace(nmt: Nmt, sq: Square, namespace: Namespace, x: Extent, i: nat, c: nat)
    requires Fits(sq, x) && InNamespace(sq, namespace, x) && i < x.n && SpanStart(x, i) <= c < SpanEnd(sq.k, x, i)
    ensures var row := RangeRows(sq, x)[i];
      c < |row| && |row[c]| >= NAMESPACE_SIZE && row[c][..NAMESPACE_SIZE] == namespace.ToBytes()
  {
    var rows := RangeRows(sq, x);
    var proofs := RangeProofs(nmt, sq.k, rows, x);
    CursorFindsSegment(nmt, sq.k, rows, x, i);
    SliceIndex(HonestData(sq, x), Covered(proofs, i), Covered(proofs, i + 1), rows[i], SpanStart(x, i), SpanEnd(sq.k, x, i), c);
  }

  /** The leaves under a segment are its shares behind the namespace. */
  lemma {:induction false} SegmentLeaf(nmt: Nmt, sq: Square, namespace: Namespace, x: Extent, i: nat, c: nat)
    requires Committed(nmt, sq) && Fits(sq, x) && InNamespace(sq, namespace, x)
    requires i < x.n && SpanStart(x, i) <= c < SpanEnd(sq.k, x, i)
    ensures var row := RangeRows(sq, x)[i];
      && c < |row| == |RowLeaves(nmt, sq.k, i, row)|
      && RowLeaves(nmt, sq.k, i, row)[c] == namespace.ToBytes() + row[c]
  {
    var row := RangeRows(sq, x)[i];
    SegmentInNamespace(nmt, sq, namespace, x, i, c);
    RowIndexIsImmaterial(nmt, sq.k, i, x.first + i, row);
    LeafAt(nmt, sq.k, i, row, c);
  }

  /** The library's completeness, for one segment. */
  lemma CompleteSegment(nmt: Nmt, leaves: seq<Bytes>, lo: nat, hi: nat, namespace: Bytes, row: seq<Bytes>)
    requires NmtComplete(nmt) && lo < hi <= |leaves| == |row|
    requires forall c :: lo <= c < hi ==> leaves[c] == namespace + row[c]
    ensures nmt.verify(nmt.root(leaves), namespace, lo, hi, nmt.prove(leaves, lo, hi), row[lo..hi])
  {
    var data := row[lo..hi];
    forall j | 0 <= j < |data| ensures leaves[lo + j] == namespace + data[j] {
      assert data[j] == row[lo + j];
    }
    assert NmtCompleteAt(nmt, leaves, lo, hi, namespace, data);
  }

  /** The segment of row `i` verifies. */
  lemma {:induction false} HonestSegmentVerifies(nmt: Nmt, sq: Square, namespace: Namespace, x: Extent, i: nat)
    requires Committed(nmt, sq) && Fits(sq, x) && NmtComplete(nmt) && InNamespace(sq, namespace, x) && i < x.n
    ensures var p := RangeProof(nmt, sq.k, RangeRows(sq, x), x, i);
      nmt.verify(RangeRoots(sq, x)[i], namespace.ToBytes(), p.start, p.end, p.nodes, Segment(sq.k, RangeRows(sq, x), x, i))
  {
    var row, lo, hi := RangeRows(sq, x)[i], SpanStart(x, i), SpanEnd(sq.k, x, i);
    var leaves := RowLeaves(nmt, sq.k, i, row);
    SegmentLeaf(nmt, sq, namespace, x, i, lo);
    forall c | lo <= c < hi ensures leaves[c] == namespace.ToBytes() + row[c] {
      SegmentLeaf(nmt, sq, namespace, x, i, c);
    }
    assert RangeRoots(sq, x)[i] == nmt.root(leaves) by {
      CommittedRebuilds(nmt, sq, x);
      assert RowRebuilds(nmt, sq.k, RangeRows(sq, x), RangeRoots(sq, x), i);
    }
    CompleteSegment(nmt, leaves, lo, hi, namespace.ToBytes(), row);
  }

  lemma {:induction false} HonestRowsVerify(m: Merkle, sq: Square, x: Extent)
    requires Fits(sq, x) && MerkleComplete(m)
    ensures RowProofOk(m, HonestRowProof(m, sq, x), m.root(sq.rowRoots + sq.colRoots))
  {
    var all, rp := sq.rowRoots + sq.colRoots, HonestRowProof(m, sq, x);
    forall i | 0 <= i < |rp.proofs| ensures m.verify(m.root(all), rp.rowRoots[i], rp.proofs[i]) {
      assert all[x.first + i] == rp.rowRoots[i] && m.prove(all, x.first + i) == rp.proofs[i];
    }
  }

  /** Main result: for every range of one namespace inside a committed square, the proof is accepted
      against the data root. */
  lemma {:induction false} HonestProofIsAccepted(nmt: Nmt, m: Merkle, sq: Square, namespace: Namespace, x: Extent)
    requires Committed(nmt, sq) && Fits(sq, x) && NmtComplete(nmt) && MerkleComplete(m) && InNamespace(sq, namespace, x)
    ensures Accepted(nmt, m, HonestProof(nmt, m, sq, namespace, x), m.root(sq.rowRoots + sq.colRoots))
  {
    HonestCounts(nmt, m, sq, namespace, x);
    HonestRowsVerify(m, sq, x);
    var proof := HonestProof(nmt, m, sq, namespace, x);
    forall i | 0 <= i < |proof.shareProofs| ensures SegmentVerifies(nmt, proof, i) {
      CursorFindsSegment(nmt, sq.k, RangeRows(sq, x), x, i);
      HonestSegmentVerifies(nmt, sq, namespace, x, i);
    }
  }

  // ----- accepted proofs speak of the committed square

  /** The shares of axis `a` of the square: its rows, then its columns. */
  function Axis(sq: Square, a: nat): seq<Bytes>
    requires ShapedSquare(sq) && a < 4 * sq.k
  {
    if a < 2 * sq.k then sq.rows[a] else seq(2 * sq.k, r requires 0 <= r < 2 * sq.k => sq.rows[r][a - 2 * sq.k])
  }

  function AxisLeaves(nmt: Nmt, sq: Square, a: nat): seq<Bytes>
    requires ShapedSquare(sq) && a < 4 * sq.k
  {
    RowLeaves(nmt, sq.k, if a < 2 * sq.k then a else a - 2 * sq.k, Axis(sq, a))
  }

  /** The roots of rows and columns, in the order in which the data root commits to them. */
  function AllRoots(sq: Square): seq<Bytes> {
    sq.rowRoots + sq.colRoots
  }

  /** Every root is that of its axis. */
  predicate FullyCommitted(nmt: Nmt, sq: Square) {
    && ShapedSquare(sq) && |sq.colRoots| == 2 * sq.k
    && forall a :: 0 <= a < 4 * sq.k ==>
         |AxisLeaves(nmt, sq, a)| == 2 * sq.k && AllRoots(sq)[a] == nmt.root(AxisLeaves(nmt, sq, a))
  }

  /** A path that verifies leads to the leaf at the position it carries. */
  predicate PathIsGenuine(leaves: seq<Bytes>, leaf: Bytes, path: Path) {
    0 <= path.index < |leaves| && leaves[path.index] == leaf
  }

  /** A range proof that verifies covers leaves of the tree, each a share behind the namespace. */
  predicate SpanIsGenuine(leaves: seq<Bytes>, namespace: Bytes, p: NmtProof, data: seq<Bytes>) {
    && |namespace| == NAMESPACE_SIZE && 0 <= p.start <= p.end <= |leaves| && |data| == p.end - p.start
    && forall j :: 0 <= j < |data| ==> leaves[p.start + j] == namespace + data[j]
  }

  /** The shares of segment `i`. */
  function SegmentOf(proof: Proof, i: nat): seq<Bytes>
    requires CountsOk(proof) && i < |proof.shareProofs|
  {
    CoveredGrows(proof.shareProofs, i, i + 1);
    CoveredGrows(proof.shareProofs, i + 1, |proof.shareProofs|);
    proof.Shares()[Covered(proof.shareProofs, i)..Covered(proof.shareProofs, i + 1)]
  }

  /** A proof that verifies although the tree does not contain what it proves. */
  datatype Forgery =
    | ForgedPath(leaf: Bytes, path: Path)
    | ForgedSpan(axis: nat, namespace: Bytes, proof: NmtProof, data: seq<Bytes>)

  predicate IsForgery(nmt: Nmt, m: Merkle, sq: Square, f: Forgery)
    requires ShapedSquare(sq)
  {
    match f
    case ForgedPath(leaf, path) => m.verify(m.root(AllRoots(sq)), leaf, path) && !PathIsGenuine(AllRoots(sq), leaf, path)
    case ForgedSpan(a, namespace, p, data) =>
      && a < 4 * sq.k
      && nmt.verify(nmt.root(AxisLeaves(nmt, sq, a)), namespace, p.start, p.end, p.nodes, data)
      && !SpanIsGenuine(AxisLeaves(nmt, sq, a), namespace, p, data)
  }

  /** Segment `i` is the stretch its proof names, of the row or column at its path's position, and its
      leaves carry the namespace. */
  predicate SegmentIsCommitted(nmt: Nmt, sq: Square, proof: Proof, i: nat)
    requires FullyCommitted(nmt, sq) && CountsOk(proof) && |proof.rowProof.proofs| == |proof.shareProofs|
    requires i < |proof.shareProofs| && proof.version < 256
  {
    var a, p := proof.rowProof.proofs[i].index, proof.shareProofs[i];
    && 0 <= a < 4 * sq.k && AllRoots(sq)[a] == proof.rowProof.rowRoots[i]
    && 0 <= p.start < p.end <= 2 * sq.k == |Axis(sq, a)|
    && SegmentOf(proof, i) == Axis(sq, a)[p.start..p.end]
    && forall c :: p.start <= c < p.end ==>
         |AxisLeaves(nmt, sq, a)[c]| >= NAMESPACE_SIZE &&
         AxisLeaves(nmt, sq, a)[c][..NAMESPACE_SIZE] == [proof.version] + proof.id
  }

  /** A leaf is a namespace followed by its share. */
  lemma {:induction false} LeafEndsInShare(nmt: Nmt, k: nat, axis: nat, row: seq<Bytes>, c: nat)
    requires |RowLeaves(nmt, k, axis, row)| == |row| && c < |row|
    ensures |RowLeaves(nmt, k, axis, row)[c]| >= NAMESPACE_SIZE && RowLeaves(nmt, k, axis, row)[c][NAMESPACE_SIZE..] == row[c]
  {
    var n := |row| - 1;
    AtMostOneLeafEach(nmt, k, axis, row[..n]);
    if c < n {
      LeafEndsInShare(nmt, k, axis, row[..n], c);
    } else {
      var use := FreshRun(nmt.accept, Use(k, axis, []), row[..n]);
      assert Leaf(use, row[n])[NAMESPACE_SIZE..] == row[n];
    }
  }

  lemma {:induction false} AtMostOneLeafEach(nmt: Nmt, k: nat, axis: nat, row: seq<Bytes>)
    ensures |RowLeaves(nmt, k, axis, row)| <= |row|
  {
    if row != [] {
      AtMostOneLeafEach(nmt, k, axis, row[..|row| - 1]);
    }
  }

  /** What a genuine range proof covers are the shares themselves. */
  lemma {:induction false} GenuineSpan(nmt: Nmt, sq: Square, a: nat, namespace: Bytes, p: NmtProof, data: seq<Bytes>)
    requires FullyCommitted(nmt, sq) && a < 4 * sq.k && SpanIsGenuine(AxisLeaves(nmt, sq, a), namespace, p, data)
    ensures p.end <= 2 * sq.k == |Axis(sq, a)| && data == Axis(sq, a)[p.start..p.end]
    ensures forall c :: p.start <= c < p.end ==>
      |AxisLeaves(nmt, sq, a)[c]| >= NAMESPACE_SIZE && AxisLeaves(nmt, sq, a)[c][..NAMESPACE_SIZE] == namespace
  {
    var leaves, shares := AxisLeaves(nmt, sq, a), Axis(sq, a);
    forall c | p.start <= c < p.end
      ensures |leaves[c]| >= NAMESPACE_SIZE && leaves[c][..NAMESPACE_SIZE] == namespace && data[c - p.start] == shares[c]
    {
      LeafEndsInShare(nmt, sq.k, if a < 2 * sq.k then a else a - 2 * sq.k, shares, c);
      assert leaves[p.start + (c - p.start)] == namespace + data[c - p.start];
    }
  }

  /** Main result: if the checker accepts a proof against the data root of a committed square, each of its
      segments is a stretch of the row or column at the position that its path carries, all in the claimed
      namespace; or the proof exhibits a forgery in one of the two tree libraries. */
  lemma {:induction false} AcceptedIsCommitted(nmt: Nmt, m: Merkle, sq: Square, proof: Proof, i: nat) returns (f: Forgery)
    requires FullyCommitted(nmt, sq) && Accepted(nmt, m, proof, m.root(AllRoots(sq))) && i < |proof.shareProofs|
    ensures SegmentIsCommitted(nmt, sq, proof, i) || IsForgery(nmt, m, sq, f)
  {
    var path, p, namespace := proof.rowProof.proofs[i], proof.shareProofs[i], [proof.version] + proof.id;
    f := ForgedPath(proof.rowProof.rowRoots[i], path);
    if PathIsGenuine(AllRoots(sq), proof.rowProof.rowRoots[i], path) {
      assert SegmentVerifies(nmt, proof, i);
      f := ForgedSpan(path.index, namespace, p, SegmentOf(proof, i));
      if SpanIsGenuine(AxisLeaves(nmt, sq, path.index), namespace, p, SegmentOf(proof, i)) {
        GenuineSpan(nmt, sq, path.index, namespace, p, SegmentOf(proof, i));
      }
    }
  }

  // ----- the row numbers

  /** The proof with its first row number replaced, and the last to match. */
  function Renumbered(proof: Proof, startRow: nat): Proof
    requires proof.rowProof.rowRoots != []
  {
    proof.(rowProof := proof.rowProof.(startRow := startRow, endRow := startRow + |proof.rowProof.rowRoots| - 1))
  }

  /** Only the number of rows is checked: an accepted proof is accepted under any row numbers. */
  lemma {:induction false} RowNumbersAreUnchecked(nmt: Nmt, m: Merkle, proof: Proof, root: Bytes, startRow: nat)
    requires Accepted(nmt, m, proof, root)
    ensures Accepted(nmt, m, Renumbered(proof, startRow), root)
  {
    var other := Renumbered(proof, startRow);
    forall i | 0 <= i < |other.shareProofs| ensures SegmentVerifies(nmt, other, i) {
      assert SegmentVerifies(nmt, proof, i);
    }
  }

  /** Root `i` of the proof is that of the row it numbers. */
  predicate NumberHolds(sq: Square, rp: RowProof, i: nat)
    requires i < |rp.rowRoots|
  {
    rp.startRow + i < |sq.rowRoots| && sq.rowRoots[rp.startRow + i] == rp.rowRoots[i]
  }

  /** The number of row `i` is the position that its path carries, and that of a row. */
  predicate NumberMatches(sq: Square, rp: RowProof, i: nat)
    requires i < |rp.proofs|
  {
    rp.proofs[i].index == rp.startRow + i < |sq.rowRoots|
  }

  predicate DistinctRoots(sq: Square) {
    forall a, b :: 0 <= a < b < |AllRoots(sq)| ==> AllRoots(sq)[a] != AllRoots(sq)[b]
  }

  /** Main result: a row number that matches its path holds; and if no two axes share a root, only such
      numbers hold.  A caller can compare the two; the checker does not. */
  lemma {:induction false} NumbersHoldExactly(sq: Square, rp: RowProof, i: nat)
    requires i < |rp.rowRoots| == |rp.proofs| && PathIsGenuine(AllRoots(sq), rp.rowRoots[i], rp.proofs[i])
    ensures NumberMatches(sq, rp, i) ==> NumberHolds(sq, rp, i)
    ensures DistinctRoots(sq) ==> (NumberHolds(sq, rp, i) <==> NumberMatches(sq, rp, i))
  {
    var roots, r := AllRoots(sq), rp.startRow + i;
    if r < |sq.rowRoots| {
      assert roots[r] == sq.rowRoots[r];
    }
  }

  lemma OtherNumberFails(sq: Square, rp: RowProof, first: nat)
    requires DistinctRoots(sq) && first < |sq.rowRoots| && rp.rowRoots != [] && rp.rowRoots[0] == sq.rowRoots[first]
    ensures rp.startRow != first ==> !NumberHolds(sq, rp, 0)
  {
    if rp.startRow < |sq.rowRoots| {
      assert AllRoots(sq)[rp.startRow] == sq.rowRoots[rp.startRow] && AllRoots(sq)[first] == sq.rowRoots[first];
    }
  }

  /** The proof of a range, renumbered to start at any other row, is accepted with wrong row numbers. */
  lemma {:induction false} RenumberedProofIsAccepted(nmt: Nmt, m: Merkle, sq: Square, namespace: Namespace, x: Extent, startRow: nat)
    requires Committed(nmt, sq) && Fits(sq, x) && NmtComplete(nmt) && MerkleComplete(m) && InNamespace(sq, namespace, x)
    requires DistinctRoots(sq) && startRow != x.first
    ensures var proof := Renumbered(HonestProof(nmt, m, sq, namespace, x), startRow);
      Accepted(nmt, m, proof, m.root(AllRoots(sq))) && !NumberHolds(sq, proof.rowProof, 0)
  {
    HonestProofIsAccepted(nmt, m, sq, namespace, x);
    RowNumbersAreUnchecked(nmt, m, HonestProof(nmt, m, sq, namespace, x), m.root(AllRoots(sq)), startRow);
    OtherNumberFails(sq, Renumbered(HonestProof(nmt, m, sq, namespace, x), startRow).rowProof, x.first);
  }
}
