/** What proposing and checking a block share: transactions, the application's library functions, and
    message execution (app/check_tx.go, app/pff_execution.go, x/fibre/types/classified_tx.go).

    The decoders, the ante handler, the message handlers and the square builder's admission rules are
    arbitrary functions, collected in `App`.  The state is the key-value store a context carries. */
module ProposalTypes {
  import opened Basics

  type Bytes = seq<bv8>

  type Store = map<Bytes, Bytes>

  datatype Msg = PayForBlobs(body: Bytes) | PayForFibre(promise: Bytes) | OtherMsg(body: Bytes)

  datatype SdkTx = SdkTx(msgs: seq<Msg>, rest: Bytes)

  datatype BlobTx = BlobTx(tx: Bytes, blobs: seq<Bytes>)

  datatype FibreTx = FibreTx(tx: Bytes, systemBlob: Bytes)

  datatype Unmarshaled = NotBlob | Malformed | Blob(btx: BlobTx)

  datatype Admission = Fits | Full | Invalid

  /** The contents of a square builder. */
  datatype Square = Square(txs: seq<Bytes>, blobTxs: seq<BlobTx>, fibreTxs: seq<FibreTx>)

  datatype App = App(
    unmarshalBlobTx: Bytes -> Unmarshaled,
    marshalBlobTx: BlobTx -> Option<Bytes>,
    decode: Bytes -> Option<SdkTx>,
    validPromise: Bytes -> bool,
    systemBlob: Bytes -> Option<Bytes>,
    // the ante handler: context store, tx bytes on the context, transaction
    ante: (Store, Bytes, SdkTx) -> (Store, bool),
    // None stands for a missing handler, an error or a recovered panic
    handleMsg: (Store, Msg) -> Option<Store>,
    // protobuf-framed length of one transaction
    protoSize: Bytes -> nat,
    validBlobs: BlobTx -> bool,
    validCommitments: BlobTx -> bool,
    admitTx: (Square, Bytes) -> bool,
    admitBlobTx: (Square, BlobTx) -> Admission,
    admitFibreTx: (Square, FibreTx) -> Admission)

  const MAX_TX_SIZE := 8_388_608
  const MAX_SDK_MESSAGES := 600
  const MAX_PFB_MESSAGES := 200
  const MAX_PFF_MESSAGES := 200

  /** The raw bytes are the canonical encoding of the decoded blob transaction. */
  predicate IsCanonical(app: App, raw: Bytes, btx: BlobTx) {
    app.marshalBlobTx(btx) == Some(raw)
  }

  predicate HasPFB(msgs: seq<Msg>) {
    exists m <- msgs :: m.PayForBlobs?
  }

  function CountPFF(msgs: seq<Msg>): nat {
    if msgs == [] then 0 else (if msgs[0].PayForFibre? then 1 else 0) + CountPFF(msgs[1..])
  }

  /** A pay-for-fibre message stands alone and carries a statelessly valid promise. */
  predicate ValidPFFShape(app: App, tx: SdkTx) {
    forall m <- tx.msgs :: m.PayForFibre? ==> |tx.msgs| <= 1 && app.validPromise(m.promise)
  }

  predicate IsPFF(tx: SdkTx) {
    |tx.msgs| == 1 && tx.msgs[0].PayForFibre?
  }

  lemma {:induction false} CountPFFZero(msgs: seq<Msg>)
    ensures CountPFF(msgs) == 0 <==> forall m <- msgs :: !m.PayForFibre?
  {
    if msgs != [] {
      CountPFFZero(msgs[1..]);
      assert forall m :: m in msgs <==> m == msgs[0] || m in msgs[1..];
    }
  }

  /** The two ways the source recognises a pay-for-fibre transaction agree on well-shaped ones. */
  lemma RecognisersAgree(app: App, tx: SdkTx)
    requires ValidPFFShape(app, tx)
    ensures IsPFF(tx) <==> CountPFF(tx.msgs) > 0
    ensures IsPFF(tx) ==> !HasPFB(tx.msgs)
  {
    CountPFFZero(tx.msgs);
    if IsPFF(tx) {
      assert tx.msgs[0] in tx.msgs;
    }
  }

  /** All messages in order, or nothing. */
  function Executed(app: App, st: Store, msgs: seq<Msg>): Option<Store> {
    if msgs == [] then
      Some(st)
    else
      var before := Executed(app, st, msgs[..|msgs| - 1]);
      if before.None? then None else app.handleMsg(before.value, msgs[|msgs| - 1])
  }

  method ExecuteTxMsgs(app: App, st: Store, tx: SdkTx) returns (ok: bool, after: Store)
    ensures ok <==> Executed(app, st, tx.msgs).Some?
    ensures after == if ok then Executed(app, st, tx.msgs).value else st
  {
    var cache := st;
    for i := 0 to |tx.msgs|
      invariant Executed(app, st, tx.msgs[..i]) == Some(cache)
    {
      assert tx.msgs[..i + 1][..i] == tx.msgs[..i];
      var handled := app.handleMsg(cache, tx.msgs[i]);
      if handled.None? {
        FailureIsFinal(app, st, tx.msgs, i + 1);
        return false, st;
      }
      cache := handled.value;
    }
    assert tx.msgs[..|tx.msgs|] == tx.msgs;
    return true, cache;
  }

  lemma {:induction false} FailureIsFinal(app: App, st: Store, msgs: seq<Msg>, n: nat)
    requires n <= |msgs| && Executed(app, st, msgs[..n]).None?
    ensures Executed(app, st, msgs).None?
    decreases |msgs| - n
  {
    if n == |msgs| {
      assert msgs[..n] == msgs;
    } else {
      assert msgs[..n + 1][..n] == msgs[..n];
      FailureIsFinal(app, st, msgs, n + 1);
    }
  }

  datatype Parsed = NotFibre | BadFibre | Fibre(ftx: FibreTx)

  /** A blob transaction is never a fibre transaction; otherwise a lone pay-for-fibre message makes one. */
  function TryParseFibreTx(app: App, raw: Bytes): Parsed {
    if !app.unmarshalBlobTx(raw).NotBlob? then
      NotFibre
    else
      match app.decode(raw)
      case None => NotFibre
      case Some(tx) =>
        if !IsPFF(tx) then NotFibre else
          match app.systemBlob(tx.msgs[0].promise)
          case None => BadFibre
          case Some(b) => Fibre(FibreTx(raw, b))
  }

  /** The stateless checks of CheckTx for a new transaction. */
  predicate PassesCheckTx(app: App, raw: Bytes) {
    && |raw| <= MAX_TX_SIZE
    && match app.unmarshalBlobTx(raw)
       case Malformed => false
       case Blob(btx) =>
         && IsCanonical(app, raw, btx)
         && ValidateBlobTx(app, btx)
         && app.decode(btx.tx).Some?
       case NotBlob =>
         match app.decode(raw)
         case None => false
         case Some(tx) =>
           && !HasPFB(tx.msgs)
           && |tx.msgs| <= MAX_SDK_MESSAGES
           && ValidPFFShape(app, tx)
  }

  predicate ValidateBlobTx(app: App, btx: BlobTx) {
    app.validBlobs(btx) && app.validCommitments(btx)
  }

  /** Validation that skips the commitments of a blob transaction found in the cache. */
  predicate ValidateBlobTxWithCache(app: App, cached: BlobTx -> bool, btx: BlobTx) {
    if cached(btx) then app.validBlobs(btx) else ValidateBlobTx(app, btx)
  }
}
