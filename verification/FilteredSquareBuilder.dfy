/** Filling a square with the transactions of a proposal (app/filtered_square_builder.go). */
module FilteredSquareBuilder {
  import opened Basics
  import opened ProposalTypes

  // ----- specification: what each stage keeps

  function TotalSize(app: App, txs: seq<Bytes>): nat {
    if txs == [] then 0 else TotalSize(app, txs[..|txs| - 1]) + app.protoSize(txs[|txs| - 1])
  }

  /** Skips every transaction that would take the running size over the limit. */
  function WithinBytes(app: App, txs: seq<Bytes>, maxTxBytes: int): seq<Bytes> {
    if maxTxBytes <= 0 || txs == [] then
      txs
    else
      var front, tx := WithinBytes(app, txs[..|txs| - 1], maxTxBytes), txs[|txs| - 1];
      if TotalSize(app, front) + app.protoSize(tx) > maxTxBytes then front else front + [tx]
  }

  datatype Separated = Separated(normal: seq<Bytes>, blobs: seq<BlobTx>, rawBlobs: seq<Bytes>, fibre: seq<Bytes>)

  function SeparateOne(app: App, s: Separated, raw: Bytes): Separated {
    if |raw| > MAX_TX_SIZE then s else
      match app.unmarshalBlobTx(raw)
      case Malformed => s
      case Blob(btx) =>
        if IsCanonical(app, raw, btx) then s.(blobs := s.blobs + [btx], rawBlobs := s.rawBlobs + [raw]) else s
      case NotBlob =>
        match app.decode(raw)
        case None => s
        case Some(tx) =>
          if CountPFF(tx.msgs) == 0 then
            s.(normal := s.normal + [raw])
          else if ValidPFFShape(app, tx) then
            s.(fibre := s.fibre + [raw])
          else
            s
  }

  function Separate(app: App, txs: seq<Bytes>): Separated {
    if txs == [] then Separated([], [], [], []) else SeparateOne(app, Separate(app, txs[..|txs| - 1]), txs[|txs| - 1])
  }

  /** The loop state of one stage: store, builder contents, message count and transactions kept. */
  datatype Filling = Filling(st: Store, square: Square, count: nat, kept: seq<Bytes>)

  function NormalStep(app: App, f: Filling, raw: Bytes): Filling {
    match app.decode(raw)
    case None => f
    case Some(tx) =>
      if f.count + |tx.msgs| > MAX_SDK_MESSAGES || !app.admitTx(f.square, raw) then
        f
      else
        var (st, ok) := app.ante(f.st, raw, tx);
        if !ok then
          f.(st := st)
        else
          Filling(st, f.square.(txs := f.square.txs + [raw]), f.count + |tx.msgs|, f.kept + [raw])
  }

  function NormalStage(app: App, f: Filling, txs: seq<Bytes>): Filling {
    if txs == [] then f else NormalStep(app, NormalStage(app, f, txs[..|txs| - 1]), txs[|txs| - 1])
  }

  function BlobStep(app: App, f: Filling, btx: BlobTx, raw: Bytes): Filling {
    match app.decode(btx.tx)
    case None => f
    case Some(tx) =>
      if f.count + |tx.msgs| > MAX_PFB_MESSAGES || app.admitBlobTx(f.square, btx) != Fits then
        f
      else
        var (st, ok) := app.ante(f.st, btx.tx, tx);
        if !ok then
          f.(st := st)
        else
          Filling(st, f.square.(blobTxs := f.square.blobTxs + [btx]), f.count + |tx.msgs|, f.kept + [raw])
  }

  function BlobStage(app: App, f: Filling, btxs: seq<BlobTx>, raws: seq<Bytes>): Filling
    requires |btxs| == |raws|
  {
    if btxs == [] then
      f
    else
      var n := |btxs| - 1;
      BlobStep(app, BlobStage(app, f, btxs[..n], raws[..n]), btxs[n], raws[n])
  }

  /** A pay-for-fibre transaction runs on a branch of the store that is committed only if it settles. */
  function FibreStep(app: App, f: Filling, raw: Bytes): Filling {
    match TryParseFibreTx(app, raw)
    case NotFibre => f
    case BadFibre => f
    case Fibre(ftx) =>
      match app.decode(raw)
      case None => f
      case Some(tx) =>
        if f.count + |tx.msgs| > MAX_PFF_MESSAGES || app.admitFibreTx(f.square, ftx) != Fits then
          f
        else
          var (branch, ok) := app.ante(f.st, raw, tx);
          var settled := Executed(app, branch, tx.msgs);
          if !ok || settled.None? then
            f
          else
            Filling(settled.value, f.square.(fibreTxs := f.square.fibreTxs + [ftx]), f.count + |tx.msgs|, f.kept + [raw])
  }

  function FibreStage(app: App, f: Filling, txs: seq<Bytes>): Filling {
    if txs == [] then f else FibreStep(app, FibreStage(app, f, txs[..|txs| - 1]), txs[|txs| - 1])
  }

  /** The three stages in order; every stage counts its own messages. */
  function Filled(app: App, st: Store, square: Square, txs: seq<Bytes>, maxTxBytes: int): (Filling, Filling, Filling)
    requires |Separate(app, WithinBytes(app, txs, maxTxBytes)).blobs| == |Separate(app, WithinBytes(app, txs, maxTxBytes)).rawBlobs|
  {
    var s := Separate(app, WithinBytes(app, txs, maxTxBytes));
    var normal := NormalStage(app, Filling(st, square, 0, []), s.normal);
    var blob := BlobStage(app, Filling(normal.st, normal.square, 0, []), s.blobs, s.rawBlobs);
    var fibre := FibreStage(app, Filling(blob.st, blob.square, 0, []), s.fibre);
    (normal, blob, fibre)
  }

  lemma {:induction false} SeparateAligned(app: App, txs: seq<Bytes>)
    ensures |Separate(app, txs).blobs| == |Separate(app, txs).rawBlobs|
  {
    if txs != [] {
      SeparateAligned(app, txs[..|txs| - 1]);
    }
  }

  // ----- the builder

  class SquareBuilder {
    const app: App
    var square: Square

    constructor (app: App)
      ensures this.app == app && square == Square([], [], [])
    {
      this.app := app;
      square := Square([], [], []);
    }

    method AppendTx(tx: Bytes) returns (ok: bool)
      modifies this
      ensures ok == app.admitTx(old(square), tx)
      ensures square == if ok then old(square).(txs := old(square).txs + [tx]) else old(square)
    {
      ok := app.admitTx(square, tx);
      if ok {
        square := square.(txs := square.txs + [tx]);
      }
    }

    method RevertLastTx() returns (ok: bool)
      modifies this
      ensures ok <==> old(square).txs != []
      ensures square == if ok then old(square).(txs := old(square).txs[..|old(square).txs| - 1]) else old(square)
    {
      ok := square.txs != [];
      if ok {
        square := square.(txs := square.txs[..|square.txs| - 1]);
      }
    }

    method AppendBlobTx(btx: BlobTx) returns (a: Admission)
      modifies this
      ensures a == app.admitBlobTx(old(square), btx)
      ensures square == if a == Fits then old(square).(blobTxs := old(square).blobTxs + [btx]) else old(square)
    {
      a := app.admitBlobTx(square, btx);
      if a == Fits {
        square := square.(blobTxs := square.blobTxs + [btx]);
      }
    }

    method RevertLastBlobTx() returns (ok: bool)
      modifies this
      ensures ok <==> old(square).blobTxs != []
      ensures square ==
        if ok then old(square).(blobTxs := old(square).blobTxs[..|old(square).blobTxs| - 1]) else old(square)
    {
      ok := square.blobTxs != [];
      if ok {
        square := square.(blobTxs := square.blobTxs[..|square.blobTxs| - 1]);
      }
    }

    method AppendFibreTx(ftx: FibreTx) returns (a: Admission)
      modifies this
      ensures a == app.admitFibreTx(old(square), ftx)
      ensures square == if a == Fits then old(square).(fibreTxs := old(square).fibreTxs + [ftx]) else old(square)
    {
      a := app.admitFibreTx(square, ftx);
      if a == Fits {
        square := square.(fibreTxs := square.fibreTxs + [ftx]);
      }
    }

    method RevertLastPayForFibreTx() returns (ok: bool)
      modifies this
      ensures ok <==> old(square).fibreTxs != []
      ensures square ==
        if ok then old(square).(fibreTxs := old(square).fibreTxs[..|old(square).fibreTxs| - 1]) else old(square)
    {
      ok := square.fibreTxs != [];
      if ok {
        square := square.(fibreTxs := square.fibreTxs[..|square.fibreTxs| - 1]);
      }
    }
  }

  // ----- the stages, in place

  method FilterByMaxBytes(app: App, txs: seq<Bytes>, maxTxBytes: int) returns (filtered: seq<Bytes>)
    ensures filtered == WithinBytes(app, txs, maxTxBytes)
  {
    if maxTxBytes <= 0 {
      return txs;
    }
    var currentTxBytes := 0;
    filtered := [];
    for i := 0 to |txs|
      invariant filtered == WithinBytes(app, txs[..i], maxTxBytes)
      invariant currentTxBytes == TotalSize(app, filtered)
    {
      assert txs[..i + 1][..i] == txs[..i];
      var size := app.protoSize(txs[i]);
      if currentTxBytes + size <= maxTxBytes {
        currentTxBytes := currentTxBytes + size;
        assert (filtered + [txs[i]])[..|filtered|] == filtered;
        filtered := filtered + [txs[i]];
      }
    }
    assert txs[..|txs|] == txs;
  }

  method SeparateTxs(app: App, rawTxs: seq<Bytes>) returns (s: Separated)
    ensures s == Separate(app, rawTxs)
  {
    s := Separated([], [], [], []);
    for i := 0 to |rawTxs|
      invariant s == Separate(app, rawTxs[..i])
    {
      assert rawTxs[..i + 1][..i] == rawTxs[..i];
      s := SeparateOne(app, s, rawTxs[i]);
    }
    assert rawTxs[..|rawTxs|] == rawTxs;
  }

  /** Appends one plain transaction and runs its ante handler; a failure is reverted. */
  method TryTx(builder: SquareBuilder, tx: Bytes, st0: Store, count0: nat, ghost kept: seq<Bytes>)
    returns (ok: bool, st: Store, count: nat)
    modifies builder
    ensures NormalStep(builder.app, Filling(st0, old(builder.square), count0, kept), tx) ==
      Filling(st, builder.square, count, if ok then kept + [tx] else kept)
  {
    ghost var square := builder.square;
    st, count := st0, count0;
    var sdkTx := builder.app.decode(tx);
    if sdkTx.None? || count + |sdkTx.value.msgs| > MAX_SDK_MESSAGES {
      return false, st, count;
    }
    var appended := builder.AppendTx(tx);
    if !appended {
      return false, st, count;
    }
    st, ok := builder.app.ante(st, tx, sdkTx.value).0, builder.app.ante(st, tx, sdkTx.value).1;
    if !ok {
      var reverted := builder.RevertLastTx();
      assert builder.square.txs == square.txs;
      return;
    }
    count := count + |sdkTx.value.msgs|;
  }

  /** Runs the normal transactions; the ones kept are compacted to the front of the array. */
  method FillNormal(builder: SquareBuilder, normalTxs: array<Bytes>, st0: Store) returns (n: nat, st: Store)
    modifies builder, normalTxs
    ensures var f := NormalStage(builder.app, Filling(st0, old(builder.square), 0, []), old(normalTxs[..]));
      && n <= normalTxs.Length
      && normalTxs[..n] == f.kept && builder.square == f.square && st == f.st
  {
    ghost var txs, f0 := normalTxs[..], Filling(st0, builder.square, 0, []);
    var sdkMessageCount: nat := 0;
    n, st := 0, st0;
    for i := 0 to normalTxs.Length
      invariant n <= i && forall k :: i <= k < normalTxs.Length ==> normalTxs[k] == txs[k]
      invariant Filling(st, builder.square, sdkMessageCount, normalTxs[..n])
             == NormalStage(builder.app, f0, txs[..i])
    {
      assert txs[..i + 1][..i] == txs[..i];
      ghost var f := Filling(st, builder.square, sdkMessageCount, normalTxs[..n]);
      ghost var g := NormalStep(builder.app, f, txs[i]);
      assert g == NormalStage(builder.app, f0, txs[..i + 1]);
      var tx, ok := normalTxs[i], false;
      ok, st, sdkMessageCount := TryTx(builder, tx, st, sdkMessageCount, f.kept);
      if ok {
        normalTxs[n] := tx;
        n := n + 1;
        assert normalTxs[..n] == f.kept + [tx];
      }
    }
    assert txs[..|txs|] == txs;
  }

  /** Appends one blob transaction and runs its ante handler; a failure is reverted. */
  method TryBlobTx(builder: SquareBuilder, btx: BlobTx, st0: Store, count0: nat, ghost raw: Bytes, ghost kept: seq<Bytes>)
    returns (ok: bool, st: Store, count: nat)
    modifies builder
    ensures BlobStep(builder.app, Filling(st0, old(builder.square), count0, kept), btx, raw) ==
      Filling(st, builder.square, count, if ok then kept + [raw] else kept)
  {
    ghost var square := builder.square;
    st, count := st0, count0;
    var sdkTx := builder.app.decode(btx.tx);
    if sdkTx.None? || count + |sdkTx.value.msgs| > MAX_PFB_MESSAGES {
      return false, st, count;
    }
    var a := builder.AppendBlobTx(btx);
    if a != Fits {
      return false, st, count;
    }
    st, ok := builder.app.ante(st, btx.tx, sdkTx.value).0, builder.app.ante(st, btx.tx, sdkTx.value).1;
    if !ok {
      var reverted := builder.RevertLastBlobTx();
      assert builder.square.blobTxs == square.blobTxs;
      return;
    }
    count := count + |sdkTx.value.msgs|;
  }

  /** Runs the blob transactions; the raw bytes of the ones kept are compacted to the front. */
  method FillBlobs(builder: SquareBuilder, blobTxs: seq<BlobTx>, rawBlobTxs: array<Bytes>, st0: Store) returns (m: nat, st: Store)
    requires |blobTxs| == rawBlobTxs.Length
    modifies builder, rawBlobTxs
    ensures var f := BlobStage(builder.app, Filling(st0, old(builder.square), 0, []), blobTxs, old(rawBlobTxs[..]));
      && m <= rawBlobTxs.Length
      && rawBlobTxs[..m] == f.kept && builder.square == f.square && st == f.st
  {
    ghost var raws, f0 := rawBlobTxs[..], Filling(st0, builder.square, 0, []);
    var pfbMessageCount: nat := 0;
    m, st := 0, st0;
    for i := 0 to |blobTxs|
      invariant m <= i && forall k :: i <= k < rawBlobTxs.Length ==> rawBlobTxs[k] == raws[k]
      invariant Filling(st, builder.square, pfbMessageCount, rawBlobTxs[..m])
             == BlobStage(builder.app, f0, blobTxs[..i], raws[..i])
    {
      assert blobTxs[..i + 1][..i] == blobTxs[..i] && raws[..i + 1][..i] == raws[..i];
      ghost var f := Filling(st, builder.square, pfbMessageCount, rawBlobTxs[..m]);
      ghost var g := BlobStep(builder.app, f, blobTxs[i], raws[i]);
      assert g == BlobStage(builder.app, f0, blobTxs[..i + 1], raws[..i + 1]);
      var ok;
      ok, st, pfbMessageCount := TryBlobTx(builder, blobTxs[i], st, pfbMessageCount, raws[i], f.kept);
      if ok {
        rawBlobTxs[m] := rawBlobTxs[i];
        m := m + 1;
        assert rawBlobTxs[..m] == f.kept + [raws[i]];
      }
    }
    assert blobTxs[..|blobTxs|] == blobTxs && raws[..|raws|] == raws;
  }

  /** Runs the pay-for-fibre transactions, each on its own branch of the store. */
  method ProcessFibreTxsForSquare(builder: SquareBuilder, txs: seq<Bytes>, st0: Store) returns (fibreTxs: seq<Bytes>, st: Store)
    modifies builder
    ensures var f := FibreStage(builder.app, Filling(st0, old(builder.square), 0, []), txs);
      fibreTxs == f.kept && builder.square == f.square && st == f.st
  {
    ghost var f0 := Filling(st0, builder.square, 0, []);
    var pffMessageCount: nat := 0;
    fibreTxs, st := [], st0;
    for i := 0 to |txs|
      invariant Filling(st, builder.square, pffMessageCount, fibreTxs) == FibreStage(builder.app, f0, txs[..i])
    {
      assert txs[..i + 1][..i] == txs[..i];
      ghost var square := builder.square;
      var parsed := TryParseFibreTx(builder.app, txs[i]);
      if !parsed.Fibre? {
        continue;
      }
      var sdkTx := builder.app.decode(txs[i]);
      if sdkTx.None? || pffMessageCount + |sdkTx.value.msgs| > MAX_PFF_MESSAGES {
        continue;
      }
      var a := builder.AppendFibreTx(parsed.ftx);
      if a != Fits {
        continue;
      }
      var (branch, ok) := builder.app.ante(st, txs[i], sdkTx.value);
      var settled, after := false, branch;
      if ok {
        settled, after := ExecuteTxMsgs(builder.app, branch, sdkTx.value);
      }
      if !settled {
        var reverted := builder.RevertLastPayForFibreTx();
        assert builder.square.fibreTxs == square.fibreTxs;
        continue;
      }
      st := after;
      pffMessageCount := pffMessageCount + |sdkTx.value.msgs|;
      fibreTxs := fibreTxs + [txs[i]];
    }
    assert txs[..|txs|] == txs;
  }

  /** Fill: filter by size, separate, run the three stages, return the transactions kept. */
  method Fill(builder: SquareBuilder, st0: Store, txs: seq<Bytes>, maxTxBytes: int) returns (kept: seq<Bytes>, st: Store)
    modifies builder
    ensures |Separate(builder.app, WithinBytes(builder.app, txs, maxTxBytes)).blobs|
         == |Separate(builder.app, WithinBytes(builder.app, txs, maxTxBytes)).rawBlobs|
    ensures var (normal, blob, fibre) := Filled(builder.app, st0, old(builder.square), txs, maxTxBytes);
      && kept == normal.kept + blob.kept + fibre.kept
      && builder.square == fibre.square
      && st == fibre.st
  {
    var filtered := FilterByMaxBytes(builder.app, txs, maxTxBytes);
    var s := SeparateTxs(builder.app, filtered);
    SeparateAligned(builder.app, filtered);
    var normalTxs := new Bytes[|s.normal|](i requires 0 <= i < |s.normal| => s.normal[i]);
    assert normalTxs[..] == s.normal;
    var rawBlobTxs := new Bytes[|s.rawBlobs|](i requires 0 <= i < |s.rawBlobs| => s.rawBlobs[i]);
    assert rawBlobTxs[..] == s.rawBlobs;
    var n, st1 := FillNormal(builder, normalTxs, st0);
    ghost var keptNormal := normalTxs[..n];
    assert rawBlobTxs[..] == s.rawBlobs;
    var m, st2 := FillBlobs(builder, s.blobs, rawBlobTxs, st1);
    var fibreTxs;
    fibreTxs, st := ProcessFibreTxsForSquare(builder, s.fibre, st2);
    kept := normalTxs[..n] + rawBlobTxs[..m] + fibreTxs;
  }
}
