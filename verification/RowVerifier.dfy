/** Committing to extended rows and verifying batches of row proofs
    (pkg/rsema1d/coder.go, pkg/rsema1d/verifier.go). */
module RowVerifier {
  import opened Basics
  import opened BinaryLevels
  import opened MerklePath
  import opened RandomCombination

  /** K = 2^kDepth original rows and N parity rows, K + N = 2^depth. */
  datatype Config = Config(k: nat, n: nat, kDepth: nat, depth: nat)

  /** The libraries: field arithmetic, the parity matrix, the hashes and the coefficient derivation.
      `derive` takes the row root, K, N and the row size in bytes. */
  datatype Lib = Lib(
    fd: Field,
    matrix: seq<seq<Symbol>>,
    hashRow: Row -> Node,
    hashValue: GF128 -> Node,
    pair: PairHash,
    seal: (Node, Node) -> Node,
    derive: (Node, nat, nat, nat) -> seq<GF128>)

  datatype RowProof = RowProof(index: int, row: Row, path: seq<Node>)

  const SYMBOLS_PER_CHUNK := 32

  /** What NewVerifier validates, together with the shapes the libraries produce. */
  ghost predicate ValidSetup(cfg: Config, lib: Lib) {
    && cfg.k == Pow2(cfg.kDepth) && cfg.k + cfg.n == Pow2(cfg.depth) && cfg.n > 0
    && |lib.matrix| == cfg.n && (forall i :: 0 <= i < cfg.n ==> |lib.matrix[i]| == cfg.k)
    && (forall root, len: nat :: |lib.derive(root, cfg.k, cfg.n, 2 * len)| == len)
  }

  // ----- commitment

  function RowHashes(lib: Lib, rows: seq<Row>): (h: seq<Node>)
    ensures |h| == |rows|
  {
    seq(|rows|, i requires 0 <= i < |rows| => lib.hashRow(rows[i]))
  }

  function ValueHashes(lib: Lib, values: seq<GF128>): (h: seq<Node>)
    ensures |h| == |values|
  {
    seq(|values|, i requires 0 <= i < |values| => lib.hashValue(values[i]))
  }

  function ValueRoot(cfg: Config, lib: Lib, values: seq<GF128>): Node
    requires cfg.k == Pow2(cfg.kDepth) && |values| == cfg.k
  {
    Root(lib.pair, ValueHashes(lib, values), cfg.kDepth)
  }

  function Widened(values: seq<GF128>): (r: seq<Row>)
    ensures |r| == |values| && Rectangular(r, WIDTH)
  {
    seq(|values|, i requires 0 <= i < |values| => values[i])
  }

  function Narrowed(rows: seq<Row>): (r: seq<GF128>)
    requires Rectangular(rows, WIDTH)
    ensures |r| == |rows|
  {
    seq(|rows|, i requires 0 <= i < |rows| => rows[i])
  }

  /** The Reed-Solomon extension of the K original combinations. */
  function ExtendedValues(lib: Lib, values: seq<GF128>): (r: seq<GF128>)
    requires forall i :: 0 <= i < |lib.matrix| ==> |lib.matrix[i]| == |values|
    ensures |r| == |values| + |lib.matrix|
  {
    Narrowed(Extend(lib.fd, lib.matrix, Widened(values), WIDTH))
  }

  datatype Encoded = Encoded(rows: seq<Row>, rowRoot: Node, values: seq<GF128>, commitment: Node)

  /** EncodeWithTree: extend the originals, then commit to rows and combinations. */
  function Encode(cfg: Config, lib: Lib, originals: seq<Row>, len: nat): (e: Encoded)
    requires cfg.k == Pow2(cfg.kDepth) && cfg.k + cfg.n == Pow2(cfg.depth)
    requires |lib.matrix| == cfg.n && forall i :: 0 <= i < cfg.n ==> |lib.matrix[i]| == cfg.k
    requires |originals| == cfg.k && Rectangular(originals, len)
    requires forall root :: |lib.derive(root, cfg.k, cfg.n, 2 * len)| == len
    ensures |e.rows| == cfg.k + cfg.n && |e.values| == cfg.k
  {
    var rows := Extend(lib.fd, lib.matrix, originals, len);
    var rowRoot := Root(lib.pair, RowHashes(lib, rows), cfg.depth);
    var coeffs := lib.derive(rowRoot, cfg.k, cfg.n, 2 * len);
    var values := Combined(lib.fd, originals, coeffs);
    Encoded(rows, rowRoot, values, lib.seal(rowRoot, ValueRoot(cfg, lib, values)))
  }

  // ----- verification, on values

  datatype Coefficients = Coefficients(values: seq<GF128>, rowRoot: Node, rowSize: nat)

  /** The verifier's cached state. */
  datatype Cache = Cache(rlcRoot: Node, shards: seq<GF128>, coeffs: Option<Coefficients>)

  /** Shape of a batch: non-empty, indices in range, equal row lengths, full-depth paths, and a row length
      that is a positive number of whole chunks. */
  predicate ValidBatch(cfg: Config, proofs: seq<RowProof>) {
    && proofs != []
    && (forall i :: 0 <= i < |proofs| ==>
          && 0 <= proofs[i].index < cfg.k + cfg.n
          && |proofs[i].row| == |proofs[0].row|
          && |proofs[i].path| == cfg.depth)
    && |proofs[0].row| > 0 && |proofs[0].row| % SYMBOLS_PER_CHUNK == 0
  }

  function ProofRoot(lib: Lib, p: RowProof): Option<Node>
    requires p.index >= 0
  {
    RootFrom(lib.pair, lib.hashRow(p.row), p.index, p.path)
  }

  /** All proofs lead to one root, the one of the first. */
  predicate SameRoot(lib: Lib, proofs: seq<RowProof>)
    requires proofs != [] && forall i :: 0 <= i < |proofs| ==> proofs[i].index >= 0
  {
    && ProofRoot(lib, proofs[0]).Some?
    && forall i :: 0 <= i < |proofs| ==> ProofRoot(lib, proofs[i]) == ProofRoot(lib, proofs[0])
  }

  predicate ValuesMatch(lib: Lib, proofs: seq<RowProof>, coeffs: seq<GF128>, shards: seq<GF128>)
    requires forall i :: 0 <= i < |proofs| ==> 0 <= proofs[i].index < |shards| && |proofs[i].row| == |coeffs|
  {
    forall i :: 0 <= i < |proofs| ==> Combine(lib.fd, proofs[i].row, coeffs) == shards[proofs[i].index]
  }

  function CoefficientsFor(cfg: Config, lib: Lib, c: Cache, rowRoot: Node, rowSize: nat): Option<Coefficients> {
    if c.coeffs.None? then
      Some(Coefficients(lib.derive(rowRoot, cfg.k, cfg.n, rowSize), rowRoot, rowSize))
    else if rowSize != c.coeffs.value.rowSize || rowRoot != c.coeffs.value.rowRoot then
      None
    else
      c.coeffs
  }

  ghost predicate ValidCache(cfg: Config, lib: Lib, c: Cache) {
    && |c.shards| == cfg.k + cfg.n
    && (c.coeffs.Some? ==>
          c.coeffs.value.values == lib.derive(c.coeffs.value.rowRoot, cfg.k, cfg.n, c.coeffs.value.rowSize))
  }

  /** The outcome of checking a batch against the cached combinations: acceptance, and the cache after. */
  function Checked(cfg: Config, lib: Lib, c: Cache, commitment: Node, proofs: seq<RowProof>): (bool, Cache)
    requires |c.shards| == cfg.k + cfg.n
  {
    if !ValidBatch(cfg, proofs) || !SameRoot(lib, proofs) then
      (false, c)
    else
      var rowRoot, rowSize := ProofRoot(lib, proofs[0]).value, 2 * |proofs[0].row|;
      if lib.seal(rowRoot, c.rlcRoot) != commitment then
        (false, c)
      else
        var coeffs := CoefficientsFor(cfg, lib, c, rowRoot, rowSize);
        if coeffs.None? then
          (false, c)
        else
          (|coeffs.value.values| == |proofs[0].row| && ValuesMatch(lib, proofs, coeffs.value.values, c.shards),
           c.(coeffs := coeffs))
  }

  /** A fresh cache for the given combinations. */
  function Loaded(cfg: Config, lib: Lib, rlc: seq<GF128>): (c: Cache)
    requires cfg.k == Pow2(cfg.kDepth) && |rlc| == cfg.k
    requires |lib.matrix| == cfg.n && forall i :: 0 <= i < cfg.n ==> |lib.matrix[i]| == cfg.k
    ensures |c.shards| == cfg.k + cfg.n
  {
    Cache(ValueRoot(cfg, lib, rlc), ExtendedValues(lib, rlc), None)
  }

  // ----- the verifier

  class Verifier {
    const cfg: Config
    const lib: Lib
    var rlcRoot: Node
    var rlcShards: seq<GF128>
    var rlcCoeffs: Option<seq<GF128>>
    var coeffsRowRoot: Node
    var coeffsRowSize: nat

    ghost predicate Valid()
      reads this
    {
      ValidSetup(cfg, lib) && ValidCache(cfg, lib, Now())
    }

    ghost function Now(): Cache
      reads this
    {
      Cache(rlcRoot, rlcShards,
        if rlcCoeffs.None? then None else Some(Coefficients(rlcCoeffs.value, coeffsRowRoot, coeffsRowSize)))
    }

    constructor (cfg: Config, lib: Lib)
      requires ValidSetup(cfg, lib)
      ensures Valid() && this.cfg == cfg && this.lib == lib && Now().coeffs == None
    {
      this.cfg := cfg;
      this.lib := lib;
      rlcRoot := [];
      rlcShards := seq(cfg.k + cfg.n, _ => Zero(WIDTH));
      rlcCoeffs := None;
      coeffsRowRoot := [];
      coeffsRowSize := 0;
    }

    method SetRLC(rlc: seq<GF128>) returns (ok: bool)
      requires Valid()
      modifies this
      ensures Valid() && (ok <==> |rlc| == cfg.k)
      ensures Now() == if ok then Loaded(cfg, lib, rlc) else old(Now())
    {
      if |rlc| != cfg.k {
        return false;
      }
      rlcShards := ExtendedValues(lib, rlc);
      rlcRoot := ValueRoot(cfg, lib, rlc);
      rlcCoeffs := None;
      return true;
    }

    /** Shape checks, in the source's order; returns the row length of the batch. */
    method ValidateProofs(proofs: seq<RowProof>) returns (len: Option<nat>)
      ensures len.Some? <==> ValidBatch(cfg, proofs)
      ensures len.Some? ==> len.value == |proofs[0].row|
    {
      if |proofs| == 0 {
        return None;
      }
      var rowLen := |proofs[0].row|;
      for i := 0 to |proofs|
        invariant forall j :: 0 <= j < i ==>
          0 <= proofs[j].index < cfg.k + cfg.n && |proofs[j].row| == rowLen && |proofs[j].path| == cfg.depth
      {
        var p := proofs[i];
        if p.index < 0 || p.index >= cfg.k + cfg.n || |p.row| != rowLen || |p.path| != cfg.depth {
          return None;
        }
      }
      if rowLen == 0 || rowLen % SYMBOLS_PER_CHUNK != 0 {
        return None;
      }
      return Some(rowLen);
    }

    /** The one root of the batch, or None if a proof is malformed or disagrees. */
    method RootFromProofs(proofs: seq<RowProof>) returns (root: Option<Node>)
      requires ValidBatch(cfg, proofs)
      ensures root.Some? <==> SameRoot(lib, proofs)
      ensures root.Some? ==> root == ProofRoot(lib, proofs[0])
    {
      var want := RootFromProof(lib.pair, lib.hashRow(proofs[0].row), proofs[0].index, proofs[0].path);
      if want.None? {
        return None;
      }
      for i := 1 to |proofs|
        invariant forall j :: 0 <= j < i ==> ProofRoot(lib, proofs[j]) == want
      {
        var r := RootFromProof(lib.pair, lib.hashRow(proofs[i].row), proofs[i].index, proofs[i].path);
        if r != want {
          assert ProofRoot(lib, proofs[i]) != ProofRoot(lib, proofs[0]);
          return None;
        }
      }
      return want;
    }

    /** Returns the coefficients for the batch, deriving them when none are cached. */
    method CoefficientsOf(rowRoot: Node, rowLen: nat) returns (coeffs: Option<seq<GF128>>)
      requires Valid()
      modifies this
      ensures Valid()
      ensures var c := CoefficientsFor(cfg, lib, old(Now()), rowRoot, 2 * rowLen);
        && (coeffs.Some? <==> c.Some?)
        && (coeffs.Some? ==> coeffs.value == c.value.values && |coeffs.value| == rowLen && Now() == old(Now()).(coeffs := c))
        && (coeffs.None? ==> Now() == old(Now()))
    {
      if rlcCoeffs.None? {
        rlcCoeffs := Some(lib.derive(rowRoot, cfg.k, cfg.n, 2 * rowLen));
        coeffsRowRoot := rowRoot;
        coeffsRowSize := 2 * rowLen;
        return rlcCoeffs;
      }
      if 2 * rowLen != coeffsRowSize || rowRoot != coeffsRowRoot {
        return None;
      }
      return rlcCoeffs;
    }

    /** Checks a batch against the cached combinations. */
    method VerifyShared(commitment: Node, proofs: seq<RowProof>) returns (ok: bool)
      requires Valid()
      modifies this
      ensures Valid()
      ensures (ok, Now()) == Checked(cfg, lib, old(Now()), commitment, proofs)
    {
      var len := ValidateProofs(proofs);
      if len.None? {
        return false;
      }
      var root := RootFromProofs(proofs);
      if root.None? || lib.seal(root.value, rlcRoot) != commitment {
        return false;
      }
      var coeffs := CoefficientsOf(root.value, len.value);
      if coeffs.None? {
        return false;
      }
      for i := 0 to |proofs|
        invariant forall j :: 0 <= j < i ==>
          Combine(lib.fd, proofs[j].row, coeffs.value) == rlcShards[proofs[j].index]
      {
        if Combine(lib.fd, proofs[i].row, coeffs.value) != rlcShards[proofs[i].index] {
          assert !ValuesMatch(lib, proofs, coeffs.value, rlcShards);
          return false;
        }
      }
      return true;
    }

    /** Loads the given combinations, then checks the batch against them. */
    method Verify(commitment: Node, proofs: seq<RowProof>, rlc: seq<GF128>) returns (ok: bool)
      requires Valid()
      modifies this
      ensures Valid()
      ensures |rlc| != cfg.k ==> !ok && Now() == old(Now())
      ensures |rlc| == cfg.k ==> (ok, Now()) == Checked(cfg, lib, Loaded(cfg, lib, rlc), commitment, proofs)
    {
      var loaded := SetRLC(rlc);
      if !loaded {
        return false;
      }
      ok := VerifyShared(commitment, proofs);
    }
  }

  // ----- honest rows are accepted

  /** The proof an honest encoder issues for row `i`. */
  function Issued(cfg: Config, lib: Lib, e: Encoded, i: nat): RowProof
    requires |e.rows| == Pow2(cfg.depth) && i < |e.rows|
  {
    RowProof(i, e.rows[i], Path(lib.pair, RowHashes(lib, e.rows), cfg.depth, i))
  }

  ghost predicate HashesSized(lib: Lib) {
    PairSized(lib.pair) && forall r :: |lib.hashRow(r)| == NODE_SIZE
  }

  lemma IssuedReachesRoot(cfg: Config, lib: Lib, e: Encoded, i: nat)
    requires HashesSized(lib) && |e.rows| == Pow2(cfg.depth) && i < |e.rows|
    requires e.rowRoot == Root(lib.pair, RowHashes(lib, e.rows), cfg.depth)
    ensures ProofRoot(lib, Issued(cfg, lib, e, i)) == Some(e.rowRoot)
  {
    PathIsComplete(lib.pair, RowHashes(lib, e.rows), cfg.depth, i);
  }

  /** The combination of row `i` is the extended value the verifier expects there. */
  lemma HonestValue(cfg: Config, lib: Lib, originals: seq<Row>, len: nat, i: nat)
    requires ValidSetup(cfg, lib) && FieldLaws(lib.fd)
    requires |originals| == cfg.k && Rectangular(originals, len) && i < cfg.k + cfg.n
    ensures var e := Encode(cfg, lib, originals, len);
      Combine(lib.fd, e.rows[i], lib.derive(e.rowRoot, cfg.k, cfg.n, 2 * len)) == ExtendedValues(lib, e.values)[i]
  {
    var e := Encode(cfg, lib, originals, len);
    var coeffs := lib.derive(e.rowRoot, cfg.k, cfg.n, 2 * len);
    CombineCommutesWithExtend(lib.fd, lib.matrix, originals, coeffs, i);
    assert Widened(e.values) == Combined(lib.fd, originals, coeffs);
  }

  /** Main result: against the commitment an honest encoder computed, with the combinations it
      publishes, every non-empty batch of its rows, original or parity, is accepted. */
  lemma {:induction false} HonestBatchIsAccepted(cfg: Config, lib: Lib, originals: seq<Row>, len: nat, indices: seq<nat>)
    requires ValidSetup(cfg, lib) && FieldLaws(lib.fd) && HashesSized(lib)
    requires |originals| == cfg.k && Rectangular(originals, len)
    requires len > 0 && len % SYMBOLS_PER_CHUNK == 0
    requires indices != [] && forall j :: 0 <= j < |indices| ==> indices[j] < cfg.k + cfg.n
    ensures var e := Encode(cfg, lib, originals, len);
      var proofs := seq(|indices|, j requires 0 <= j < |indices| => Issued(cfg, lib, e, indices[j]));
      Checked(cfg, lib, Loaded(cfg, lib, e.values), e.commitment, proofs).0
  {
    var e := Encode(cfg, lib, originals, len);
    var proofs := seq(|indices|, j requires 0 <= j < |indices| => Issued(cfg, lib, e, indices[j]));
    forall j | 0 <= j < |proofs|
      ensures ProofRoot(lib, proofs[j]) == Some(e.rowRoot)
      ensures Combine(lib.fd, proofs[j].row, lib.derive(e.rowRoot, cfg.k, cfg.n, 2 * len))
           == ExtendedValues(lib, e.values)[proofs[j].index]
    {
      IssuedReachesRoot(cfg, lib, e, indices[j]);
      HonestValue(cfg, lib, originals, len, indices[j]);
    }
    assert ValidBatch(cfg, proofs) && SameRoot(lib, proofs);
  }

  // ----- accepted rows are determined by the commitment

  /** Evidence that a hash is broken: two different inputs with the same output. */
  datatype Collision =
    | OfSeal(a: (Node, Node), b: (Node, Node))
    | OfRow(r: Row, s: Row)
    | OfPair(inputs: ((Node, Node), (Node, Node)))

  predicate Collides(lib: Lib, col: Collision) {
    match col
    case OfSeal(a, b) => a != b && lib.seal(a.0, a.1) == lib.seal(b.0, b.1)
    case OfRow(r, s) => r != s && lib.hashRow(r) == lib.hashRow(s)
    case OfPair(inputs) => PairCollides(lib.pair, inputs)
  }

  /** Where two proofs for one index and one commitment part ways. */
  function Conflict(lib: Lib, c: Cache, d: Cache, p: RowProof, q: RowProof): Collision
    requires p.index == q.index >= 0 && |p.path| == |q.path|
    requires ProofRoot(lib, p).Some? && ProofRoot(lib, q).Some?
  {
    if ProofRoot(lib, p) != ProofRoot(lib, q) then
      OfSeal((ProofRoot(lib, p).value, c.rlcRoot), (ProofRoot(lib, q).value, d.rlcRoot))
    else if lib.hashRow(p.row) == lib.hashRow(q.row) || |p.path| == 0 then
      OfRow(p.row, q.row)
    else
      OfPair(Meeting(lib.pair, lib.hashRow(p.row), lib.hashRow(q.row), p.index, p.path, q.path))
  }

  /** Main result: two batches accepted against the same commitment, whoever sent them and whatever
      combinations came with them, agree on every row index they share, or the two proofs exhibit a hash
      collision. */
  lemma {:induction false} AcceptedRowsAgree(cfg: Config, lib: Lib, c: Cache, d: Cache, commitment: Node,
                                             ps: seq<RowProof>, qs: seq<RowProof>, i: nat, j: nat)
    requires |c.shards| == |d.shards| == cfg.k + cfg.n
    requires Checked(cfg, lib, c, commitment, ps).0 && Checked(cfg, lib, d, commitment, qs).0
    requires i < |ps| && j < |qs| && ps[i].index == qs[j].index
    ensures 0 <= ps[i].index < cfg.k + cfg.n && |ps[i].path| == |qs[j].path|
    ensures ProofRoot(lib, ps[i]).Some? && ProofRoot(lib, qs[j]).Some?
    ensures ps[i].row == qs[j].row || Collides(lib, Conflict(lib, c, d, ps[i], qs[j]))
  {
    var p, q := ps[i], qs[j];
    assert ProofRoot(lib, p) == ProofRoot(lib, ps[0]) && ProofRoot(lib, q) == ProofRoot(lib, qs[0]);
    assert lib.seal(ProofRoot(lib, p).value, c.rlcRoot) == lib.seal(ProofRoot(lib, q).value, d.rlcRoot);
    if ProofRoot(lib, p) == ProofRoot(lib, q) && lib.hashRow(p.row) != lib.hashRow(q.row) {
      PathIsBinding(lib.pair, lib.hashRow(p.row), lib.hashRow(q.row), p.index, p.path, q.path);
    }
  }

  /** Main result: against an honest commitment only the committed rows are accepted, short of a hash
      collision between the accepted proof and the committed row's own. */
  lemma {:induction false} OnlyCommittedRowsAccepted(cfg: Config, lib: Lib, originals: seq<Row>, len: nat,
                                                     c: Cache, ps: seq<RowProof>, i: nat)
    requires ValidSetup(cfg, lib) && FieldLaws(lib.fd) && HashesSized(lib)
    requires |originals| == cfg.k && Rectangular(originals, len) && len > 0 && len % SYMBOLS_PER_CHUNK == 0
    requires |c.shards| == cfg.k + cfg.n && i < |ps|
    requires Checked(cfg, lib, c, Encode(cfg, lib, originals, len).commitment, ps).0
    ensures 0 <= ps[i].index < cfg.k + cfg.n
    ensures var e := Encode(cfg, lib, originals, len);
      var own := Issued(cfg, lib, e, ps[i].index);
      || ps[i].row == e.rows[ps[i].index]
      || (&& |ps[i].path| == |own.path| && ProofRoot(lib, ps[i]).Some? && ProofRoot(lib, own).Some?
          && Collides(lib, Conflict(lib, c, Loaded(cfg, lib, e.values), ps[i], own)))
  {
    var e := Encode(cfg, lib, originals, len);
    var indices: seq<nat> := [ps[i].index];
    HonestBatchIsAccepted(cfg, lib, originals, len, indices);
    var proofs := seq(|indices|, j requires 0 <= j < |indices| => Issued(cfg, lib, e, indices[j]));
    AcceptedRowsAgree(cfg, lib, c, Loaded(cfg, lib, e.values), e.commitment, ps, proofs, i, 0);
  }

  // ----- sharing a cached verifier

  /** Once coefficients are cached, checking changes nothing; an accepted batch has the cached row root and
      row size; and a fresh verifier loaded with the cached combinations accepts it too. */
  lemma {:induction false} SharedAcceptanceIsFresh(cfg: Config, lib: Lib, rlc: seq<GF128>, c: Cache, commitment: Node,
                                                   proofs: seq<RowProof>)
    requires ValidSetup(cfg, lib) && |rlc| == cfg.k && ValidCache(cfg, lib, c)
    requires c.rlcRoot == Loaded(cfg, lib, rlc).rlcRoot && c.shards == Loaded(cfg, lib, rlc).shards && c.coeffs.Some?
    ensures Checked(cfg, lib, c, commitment, proofs).1 == c
    ensures Checked(cfg, lib, c, commitment, proofs).0 ==>
      && ValidBatch(cfg, proofs)
      && ProofRoot(lib, proofs[0]) == Some(c.coeffs.value.rowRoot)
      && 2 * |proofs[0].row| == c.coeffs.value.rowSize
      && Checked(cfg, lib, Loaded(cfg, lib, rlc), commitment, proofs).0
  {
  }
}
