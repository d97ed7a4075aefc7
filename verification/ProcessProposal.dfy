/** Checking the transactions of a proposed block (app/process_proposal.go), and the proof that what
    `Fill` returns passes the check. */
module ProcessProposal {
  import opened Basics
  import opened FilteredSquareBuilder
  import opened ProposalTypes

  /** The loop state: store and message counters. */
  datatype Checking = Checking(st: Store, sdkCount: nat, pfbCount: nat, pffCount: nat)

  /** One iteration; None is a rejected proposal. */
  function CheckStep(app: App, cached: BlobTx -> bool, c: Checking, raw: Bytes): Option<Checking> {
    if |raw| > MAX_TX_SIZE then None else
      match app.unmarshalBlobTx(raw)
      case Malformed => None
      case Blob(btx) =>
        if !IsCanonical(app, raw, btx) then None else
          (match app.decode(btx.tx)
           case None => None
           case Some(tx) => CheckBlob(app, cached, c, btx, tx))
      case NotBlob =>
        match app.decode(raw)
        case None => None
        case Some(tx) => CheckPlain(app, c, raw, tx)
  }

  function CheckBlob(app: App, cached: BlobTx -> bool, c: Checking, btx: BlobTx, tx: SdkTx): Option<Checking> {
    if !ValidateBlobTxWithCache(app, cached, btx) || c.pfbCount + |tx.msgs| > MAX_PFB_MESSAGES then
      None
    else
      var (st, ok) := app.ante(c.st, btx.tx, tx);
      if !ok then None else Some(c.(st := st, pfbCount := c.pfbCount + |tx.msgs|))
  }

  function CheckPlain(app: App, c: Checking, raw: Bytes, tx: SdkTx): Option<Checking> {
    if HasPFB(tx.msgs) || !ValidPFFShape(app, tx) then
      None
    else if IsPFF(tx) then
      if MAX_PFF_MESSAGES > 0 && c.pffCount + 1 > MAX_PFF_MESSAGES then
        None
      else
        var (st, ok) := app.ante(c.st, raw, tx);
        if !ok then None else
          (match Executed(app, st, tx.msgs)
           case None => None
           case Some(settled) => Some(c.(st := settled, pffCount := c.pffCount + 1)))
    else if c.sdkCount + |tx.msgs| > MAX_SDK_MESSAGES then
      None
    else
      var (st, ok) := app.ante(c.st, raw, tx);
      if !ok then None else Some(c.(st := st, sdkCount := c.sdkCount + |tx.msgs|))
  }

  function Checked(app: App, cached: BlobTx -> bool, c: Checking, txs: seq<Bytes>): Option<Checking> {
    if txs == [] then
      Some(c)
    else
      var before := Checked(app, cached, c, txs[..|txs| - 1]);
      if before.None? then None else CheckStep(app, cached, before.value, txs[|txs| - 1])
  }

  /** The loop's branch for transactions without blobs. */
  method ProcessPlain(app: App, c: Checking, raw: Bytes, tx: SdkTx) returns (r: Option<Checking>)
    ensures r == CheckPlain(app, c, raw, tx)
  {
    var st, sdkCount, pffCount := c.st, c.sdkCount, c.pffCount;
    if HasPFB(tx.msgs) || !ValidPFFShape(app, tx) {
      return None;
    }
    if IsPFF(tx) {
      pffCount := pffCount + 1;
      if MAX_PFF_MESSAGES > 0 && pffCount > MAX_PFF_MESSAGES {
        return None;
      }
    } else {
      sdkCount := sdkCount + |tx.msgs|;
      if sdkCount > MAX_SDK_MESSAGES {
        return None;
      }
    }
    var (after, ok) := app.ante(st, raw, tx);
    if !ok {
      return None;
    }
    st := after;
    if IsPFF(tx) {
      var settled, settledStore := ExecuteTxMsgs(app, st, tx);
      if !settled {
        return None;
      }
      st := settledStore;
    }
    return Some(Checking(st, sdkCount, c.pfbCount, pffCount));
  }

  /** The transaction loop, with the source's early rejections. */
  method ProcessTxs(app: App, cached: BlobTx -> bool, st0: Store, txs: seq<Bytes>) returns (r: Option<Checking>)
    ensures r == Checked(app, cached, Checking(st0, 0, 0, 0), txs)
  {
    var st, sdkCount: nat, pfbCount: nat, pffCount: nat := st0, 0, 0, 0;
    ghost var c0 := Checking(st0, 0, 0, 0);
    for idx := 0 to |txs|
      invariant Checked(app, cached, c0, txs[..idx]) == Some(Checking(st, sdkCount, pfbCount, pffCount))
    {
      assert txs[..idx + 1][..idx] == txs[..idx];
      var raw := txs[idx];
      if CheckStep(app, cached, Checking(st, sdkCount, pfbCount, pffCount), raw).None? {
        RejectionIsFinal(app, cached, c0, txs, idx + 1);
      }
      if |raw| > MAX_TX_SIZE {
        return None;
      }
      var u := app.unmarshalBlobTx(raw);
      if u.Malformed? || (u.Blob? && !IsCanonical(app, raw, u.btx)) {
        return None;
      }
      var sdkTxBytes := if u.Blob? then u.btx.tx else raw;
      var decoded := app.decode(sdkTxBytes);
      if decoded.None? {
        return None;
      }
      var tx := decoded.value;
      if u.NotBlob? {
        var plain := ProcessPlain(app, Checking(st, sdkCount, pfbCount, pffCount), raw, tx);
        if plain.None? {
          return None;
        }
        st, sdkCount, pffCount := plain.value.st, plain.value.sdkCount, plain.value.pffCount;
        continue;
      }
      if !ValidateBlobTxWithCache(app, cached, u.btx) {
        return None;
      }
      pfbCount := pfbCount + |tx.msgs|;
      if pfbCount > MAX_PFB_MESSAGES {
        return None;
      }
      var (after, ok) := app.ante(st, sdkTxBytes, tx);
      if !ok {
        return None;
      }
      st := after;
    }
    assert txs[..|txs|] == txs;
    return Some(Checking(st, sdkCount, pfbCount, pffCount));
  }

  lemma {:induction false} RejectionIsFinal(app: App, cached: BlobTx -> bool, c: Checking, txs: seq<Bytes>, n: nat)
    requires n <= |txs| && Checked(app, cached, c, txs[..n]).None?
    ensures Checked(app, cached, c, txs).None?
    decreases |txs| - n
  {
    if n == |txs| {
      assert txs[..n] == txs;
    } else {
      assert txs[..n + 1][..n] == txs[..n];
      RejectionIsFinal(app, cached, c, txs, n + 1);
    }
  }

  // ----- what the loop accepts

  /** How a transaction is counted. */
  datatype Kind = Sdk | Pfb | Pff | Unreadable

  function KindOf(app: App, raw: Bytes): Kind {
    match app.unmarshalBlobTx(raw)
    case Malformed => Unreadable
    case Blob(btx) => if app.decode(btx.tx).Some? then Pfb else Unreadable
    case NotBlob =>
      match app.decode(raw)
      case None => Unreadable
      case Some(tx) => if IsPFF(tx) then Pff else Sdk
  }

  /** The bytes that hold the transaction's messages. */
  function Inner(app: App, raw: Bytes): Bytes {
    var u := app.unmarshalBlobTx(raw);
    if u.Blob? then u.btx.tx else raw
  }

  /** The messages of kind `kind` in a transaction. */
  function Weight(app: App, kind: Kind, raw: Bytes): nat {
    if kind == Unreadable || KindOf(app, raw) != kind then 0 else |app.decode(Inner(app, raw)).value.msgs|
  }

  function MessageCount(app: App, kind: Kind, txs: seq<Bytes>): nat {
    if txs == [] then 0 else MessageCount(app, kind, txs[..|txs| - 1]) + Weight(app, kind, txs[|txs| - 1])
  }

  /** What each transaction must satisfy on its own. */
  predicate WellFormed(app: App, cached: BlobTx -> bool, raw: Bytes) {
    && |raw| <= MAX_TX_SIZE
    && KindOf(app, raw) != Unreadable
    && match app.unmarshalBlobTx(raw)
       case Malformed => false
       case Blob(btx) => IsCanonical(app, raw, btx) && ValidateBlobTxWithCache(app, cached, btx)
       case NotBlob => !HasPFB(app.decode(raw).value.msgs) && ValidPFFShape(app, app.decode(raw).value)
  }

  /** The ante handler of a transaction, and the execution of a pay-for-fibre message. */
  function AppliedOne(app: App, st: Store, raw: Bytes): Option<Store> {
    match app.decode(Inner(app, raw))
    case None => None
    case Some(tx) =>
      var (after, ok) := app.ante(st, Inner(app, raw), tx);
      if !ok then None else if KindOf(app, raw) == Pff then Executed(app, after, tx.msgs) else Some(after)
  }

  function Applied(app: App, st: Store, txs: seq<Bytes>): Option<Store> {
    if txs == [] then
      Some(st)
    else
      var before := Applied(app, st, txs[..|txs| - 1]);
      if before.None? then None else AppliedOne(app, before.value, txs[|txs| - 1])
  }

  predicate WithinCaps(c: Checking) {
    c.sdkCount <= MAX_SDK_MESSAGES && c.pfbCount <= MAX_PFB_MESSAGES && c.pffCount <= MAX_PFF_MESSAGES
  }

  /** The counters after one more transaction. */
  function Counted(app: App, c: Checking, raw: Bytes): Checking {
    Checking(c.st, c.sdkCount + Weight(app, Sdk, raw), c.pfbCount + Weight(app, Pfb, raw), c.pffCount + Weight(app, Pff, raw))
  }

  /** The counters for a list. */
  function Tally(app: App, st: Store, txs: seq<Bytes>): Checking {
    Checking(st, MessageCount(app, Sdk, txs), MessageCount(app, Pfb, txs), MessageCount(app, Pff, txs))
  }

  predicate Acceptable(app: App, cached: BlobTx -> bool, st: Store, txs: seq<Bytes>) {
    && (forall raw <- txs :: WellFormed(app, cached, raw))
    && WithinCaps(Tally(app, st, txs))
    && Applied(app, st, txs).Some?
  }

  /** One iteration, in terms of the conditions on the transaction, the caps and the store. */
  lemma {:induction false} StepExactly(app: App, cached: BlobTx -> bool, c: Checking, raw: Bytes)
    requires WithinCaps(c)
    ensures CheckStep(app, cached, c, raw) ==
      if WellFormed(app, cached, raw) && WithinCaps(Counted(app, c, raw)) && AppliedOne(app, c.st, raw).Some?
      then Some(Counted(app, c, raw).(st := AppliedOne(app, c.st, raw).value)) else None
  {
  }

  lemma AcceptableStep(app: App, cached: BlobTx -> bool, st: Store, txs: seq<Bytes>)
    requires txs != []
    ensures var n := |txs| - 1;
      Acceptable(app, cached, st, txs) <==>
        && Acceptable(app, cached, st, txs[..n]) && WellFormed(app, cached, txs[n])
        && WithinCaps(Counted(app, Tally(app, st, txs[..n]), txs[n]))
        && AppliedOne(app, Applied(app, st, txs[..n]).value, txs[n]).Some?
  {
    var n := |txs| - 1;
    assert txs == txs[..n] + [txs[n]];
  }

  /** Main result: the loop accepts a list if and only if each transaction is well formed, the list as a
      whole is within the three message caps, and the ante handlers and settlements succeed one after
      another; it then ends in their store. */
  lemma {:induction false} AcceptsExactly(app: App, cached: BlobTx -> bool, st: Store, txs: seq<Bytes>)
    ensures Checked(app, cached, Checking(st, 0, 0, 0), txs) ==
      if Acceptable(app, cached, st, txs) then Some(Tally(app, Applied(app, st, txs).value, txs)) else None
  {
    if txs != [] {
      var n := |txs| - 1;
      AcceptsExactly(app, cached, st, txs[..n]);
      AcceptableStep(app, cached, st, txs);
      if Acceptable(app, cached, st, txs[..n]) {
        var d := Tally(app, Applied(app, st, txs[..n]).value, txs[..n]);
        assert Checked(app, cached, Checking(st, 0, 0, 0), txs) == CheckStep(app, cached, d, txs[n]);
        StepExactly(app, cached, d, txs[n]);
        assert Tally(app, st, txs) == Counted(app, d, txs[n]).(st := st);
      }
    }
  }

  // ----- what Fill does not check again

  /** A failing ante handler leaves the store as it was. */
  ghost predicate AnteFailureIsInert(app: App) {
    forall st, b, tx :: !app.ante(st, b, tx).1 ==> app.ante(st, b, tx).0 == st
  }

  /** The two checks that only CheckTx and ProcessProposal make: a plain transaction carries no
      pay-for-blob message, and a blob transaction's blobs match it. */
  predicate Admissible(app: App, cached: BlobTx -> bool, raw: Bytes) {
    match app.unmarshalBlobTx(raw)
    case Malformed => true
    case Blob(btx) => ValidateBlobTxWithCache(app, cached, btx)
    case NotBlob => app.decode(raw).Some? ==> !HasPFB(app.decode(raw).value.msgs)
  }

  lemma {:induction false} AcceptedAreAdmissible(app: App, cached: BlobTx -> bool, c: Checking, txs: seq<Bytes>)
    requires Checked(app, cached, c, txs).Some?
    ensures forall raw <- txs :: Admissible(app, cached, raw)
  {
    if txs != [] {
      var n := |txs| - 1;
      AcceptedAreAdmissible(app, cached, c, txs[..n]);
      assert txs == txs[..n] + [txs[n]];
    }
  }

  lemma {:induction false} CheckedConcat(app: App, cached: BlobTx -> bool, c: Checking, a: seq<Bytes>, b: seq<Bytes>)
    requires Checked(app, cached, c, a).Some?
    ensures Checked(app, cached, c, a + b) == Checked(app, cached, Checked(app, cached, c, a).value, b)
  {
    if b == [] {
      assert a + b == a;
    } else {
      var n := |b| - 1;
      CheckedConcat(app, cached, c, a, b[..n]);
      assert (a + b)[..|a + b| - 1] == a + b[..n];
    }
  }

  // ----- what separation guarantees about each class

  predicate IsNormal(app: App, raw: Bytes) {
    && |raw| <= MAX_TX_SIZE && app.unmarshalBlobTx(raw).NotBlob?
    && app.decode(raw).Some? && CountPFF(app.decode(raw).value.msgs) == 0
  }

  predicate IsBlobPair(app: App, btx: BlobTx, raw: Bytes) {
    |raw| <= MAX_TX_SIZE && app.unmarshalBlobTx(raw) == Blob(btx) && IsCanonical(app, raw, btx)
  }

  predicate IsFibre(app: App, raw: Bytes) {
    && |raw| <= MAX_TX_SIZE && app.unmarshalBlobTx(raw).NotBlob?
    && app.decode(raw).Some? && IsPFF(app.decode(raw).value) && ValidPFFShape(app, app.decode(raw).value)
  }

  predicate IsBlob(app: App, raw: Bytes) {
    app.unmarshalBlobTx(raw).Blob? && IsBlobPair(app, app.unmarshalBlobTx(raw).btx, raw)
  }

  /** The transactions of one class, in order. */
  function Those(belongs: Bytes -> bool, txs: seq<Bytes>): (r: seq<Bytes>)
    ensures forall raw :: raw in r <==> raw in txs && belongs(raw)
  {
    if txs == [] then [] else
      var n := |txs| - 1;
      assert txs == txs[..n] + [txs[n]];
      Those(belongs, txs[..n]) + if belongs(txs[n]) then [txs[n]] else []
  }

  /** Separation keeps exactly the well-formed transactions of each class, all of them and in order, and
      pairs each blob transaction with its decoded form. */
  lemma {:induction false} SeparatedClasses(app: App, txs: seq<Bytes>)
    ensures var s := Separate(app, txs);
      && s.normal == Those(raw => IsNormal(app, raw), txs)
      && s.fibre == Those(raw => IsFibre(app, raw), txs)
      && s.rawBlobs == Those(raw => IsBlob(app, raw), txs)
      && |s.blobs| == |s.rawBlobs|
      && forall i :: 0 <= i < |s.blobs| ==> IsBlobPair(app, s.blobs[i], s.rawBlobs[i])
  {
    if txs != [] {
      var n := |txs| - 1;
      SeparatedClasses(app, txs[..n]);
      var raw := txs[n];
      if app.unmarshalBlobTx(raw).NotBlob? && app.decode(raw).Some? {
        var tx := app.decode(raw).value;
        CountPFFZero(tx.msgs);
        if ValidPFFShape(app, tx) {
          RecognisersAgree(app, tx);
        }
        assert IsPFF(tx) ==> tx.msgs[0] in tx.msgs;
      }
    }
  }

  // ----- the simulation, stage by stage

  lemma CheckedPush(app: App, cached: BlobTx -> bool, c: Checking, txs: seq<Bytes>, raw: Bytes)
    ensures var before := Checked(app, cached, c, txs);
      Checked(app, cached, c, txs + [raw]) == if before.None? then None else CheckStep(app, cached, before.value, raw)
  {
    assert (txs + [raw])[..|txs|] == txs;
  }

  /** `g` becomes `h` by skipping `raw`. */
  predicate Skipped(g: Filling, h: Filling) {
    h.kept == g.kept && h.st == g.st && h.count == g.count
  }

  lemma NormalStepAccepted(app: App, cached: BlobTx -> bool, d: Checking, g: Filling, raw: Bytes)
    requires AnteFailureIsInert(app) && IsNormal(app, raw) && g.st == d.st && g.count == d.sdkCount
    ensures var h := NormalStep(app, g, raw);
      Skipped(g, h) ||
      (h.kept == g.kept + [raw] &&
       (Admissible(app, cached, raw) ==> CheckStep(app, cached, d, raw) == Some(d.(st := h.st, sdkCount := h.count))))
  {
    CountPFFZero(app.decode(raw).value.msgs);
  }

  lemma {:induction false} NormalStageAccepted(app: App, cached: BlobTx -> bool, c: Checking, f: Filling, txs: seq<Bytes>)
    requires AnteFailureIsInert(app) && f.kept == [] && f.st == c.st && f.count == c.sdkCount
    requires forall raw <- txs :: IsNormal(app, raw)
    requires forall raw <- NormalStage(app, f, txs).kept :: Admissible(app, cached, raw)
    ensures var g := NormalStage(app, f, txs);
      Checked(app, cached, c, g.kept) == Some(c.(st := g.st, sdkCount := g.count))
  {
    if txs != [] {
      var n := |txs| - 1;
      var g, raw := NormalStage(app, f, txs[..n]), txs[n];
      var d := c.(st := g.st, sdkCount := g.count);
      NormalStepAccepted(app, cached, d, g, raw);
      NormalStageAccepted(app, cached, c, f, txs[..n]);
      CheckedPush(app, cached, c, g.kept, raw);
    }
  }

  lemma BlobStepAccepted(app: App, cached: BlobTx -> bool, d: Checking, g: Filling, btx: BlobTx, raw: Bytes)
    requires AnteFailureIsInert(app) && IsBlobPair(app, btx, raw) && g.st == d.st && g.count == d.pfbCount
    ensures var h := BlobStep(app, g, btx, raw);
      Skipped(g, h) ||
      (h.kept == g.kept + [raw] &&
       (Admissible(app, cached, raw) ==> CheckStep(app, cached, d, raw) == Some(d.(st := h.st, pfbCount := h.count))))
  {
  }

  lemma {:induction false} BlobStageAccepted(app: App, cached: BlobTx -> bool, c: Checking, f: Filling,
                                             btxs: seq<BlobTx>, raws: seq<Bytes>)
    requires AnteFailureIsInert(app) && f.kept == [] && f.st == c.st && f.count == c.pfbCount
    requires |btxs| == |raws| && forall i :: 0 <= i < |btxs| ==> IsBlobPair(app, btxs[i], raws[i])
    requires forall raw <- BlobStage(app, f, btxs, raws).kept :: Admissible(app, cached, raw)
    ensures var g := BlobStage(app, f, btxs, raws);
      Checked(app, cached, c, g.kept) == Some(c.(st := g.st, pfbCount := g.count))
  {
    if btxs != [] {
      var n := |btxs| - 1;
      var g := BlobStage(app, f, btxs[..n], raws[..n]);
      var d := c.(st := g.st, pfbCount := g.count);
      BlobStepAccepted(app, cached, d, g, btxs[n], raws[n]);
      BlobStageAccepted(app, cached, c, f, btxs[..n], raws[..n]);
      CheckedPush(app, cached, c, g.kept, raws[n]);
    }
  }

  lemma FibreStepAccepted(app: App, cached: BlobTx -> bool, d: Checking, g: Filling, raw: Bytes)
    requires IsFibre(app, raw) && g.st == d.st && g.count == d.pffCount
    ensures var h := FibreStep(app, g, raw);
      Skipped(g, h) ||
      (h.kept == g.kept + [raw] && CheckStep(app, cached, d, raw) == Some(d.(st := h.st, pffCount := h.count)))
  {
    RecognisersAgree(app, app.decode(raw).value);
  }

  lemma {:induction false} FibreStageAccepted(app: App, cached: BlobTx -> bool, c: Checking, f: Filling, txs: seq<Bytes>)
    requires f.kept == [] && f.st == c.st && f.count == c.pffCount
    requires forall raw <- txs :: IsFibre(app, raw)
    ensures var g := FibreStage(app, f, txs);
      Checked(app, cached, c, g.kept) == Some(c.(st := g.st, pffCount := g.count))
  {
    if txs != [] {
      var n := |txs| - 1;
      var g, raw := FibreStage(app, f, txs[..n]), txs[n];
      FibreStepAccepted(app, cached, c.(st := g.st, pffCount := g.count), g, raw);
      FibreStageAccepted(app, cached, c, f, txs[..n]);
      CheckedPush(app, cached, c, g.kept, raw);
    }
  }

  /** The list `Fill` returns, and the store it leaves. */
  ghost function FillResult(app: App, st: Store, square: Square, txs: seq<Bytes>, maxTxBytes: int): (r: (seq<Bytes>, Store, Square))
  {
    SeparateAligned(app, WithinBytes(app, txs, maxTxBytes));
    var (normal, blob, fibre) := Filled(app, st, square, txs, maxTxBytes);
    (normal.kept + blob.kept + fibre.kept, fibre.st, fibre.square)
  }

  /** Main result, exactly: for any transactions whatever, what `Fill` returns passes the transaction loop
      of ProcessProposal from the same store if and only if no kept plain transaction carries a
      pay-for-blob message and every kept blob transaction validates; and then both end in the same
      store. */
  lemma {:induction false} FillPassesExactlyWhenAdmissible(app: App, cached: BlobTx -> bool, st: Store, square: Square,
                                                           txs: seq<Bytes>, maxTxBytes: int)
    requires AnteFailureIsInert(app)
    ensures var (kept, after, _) := FillResult(app, st, square, txs, maxTxBytes);
      var verdict := Checked(app, cached, Checking(st, 0, 0, 0), kept);
      && (verdict.Some? <==> forall raw <- kept :: Admissible(app, cached, raw))
      && (verdict.Some? ==> verdict.value.st == after)
  {
    var c0 := Checking(st, 0, 0, 0);
    var (kept, after, _) := FillResult(app, st, square, txs, maxTxBytes);
    if Checked(app, cached, c0, kept).Some? {
      AcceptedAreAdmissible(app, cached, c0, kept);
    }
    if forall raw <- kept :: Admissible(app, cached, raw) {
      FillSimulates(app, cached, st, square, txs, maxTxBytes);
    }
  }

  /** An application where every transaction is a plain one with a pay-for-blob message. */
  function PlainPFBApp(): App {
    App(_ => NotBlob, _ => None, _ => Some(SdkTx([PayForBlobs([])], [])), _ => false, _ => None,
      (st, _, _) => (st, true), (_, _) => None, _ => 1, _ => false, _ => false,
      (_, _) => true, (_, _) => Full, (_, _) => Full)
  }

  /** Such a transaction does not pass `CheckTx`; given to `Fill` it is kept, and the list rejected. */
  lemma {:induction false} FillKeepsWhatIsRejected(cached: BlobTx -> bool, raw: Bytes)
    requires |raw| <= MAX_TX_SIZE
    ensures var app := PlainPFBApp();
      && AnteFailureIsInert(app) && !PassesCheckTx(app, raw)
      && FillResult(app, map[], Square([], [], []), [raw], 0).0 == [raw]
      && Checked(app, cached, Checking(map[], 0, 0, 0), [raw]).None?
  {
    var app, square := PlainPFBApp(), Square([], [], []);
    var msgs := app.decode(raw).value.msgs;
    assert msgs[0] in msgs;
    assert CountPFF(msgs) == 0 by {
      CountPFFZero(msgs);
    }
    assert Separate(app, [raw]) == Separated([raw], [], [], []);
    var f := Filling(map[], square, 0, []);
    assert NormalStage(app, f, [raw]).kept == [raw];
    assert [raw][..0] == [];
  }

  lemma {:induction false} FillSimulates(app: App, cached: BlobTx -> bool, st: Store, square: Square,
                                         txs: seq<Bytes>, maxTxBytes: int)
    requires AnteFailureIsInert(app)
    requires forall raw <- FillResult(app, st, square, txs, maxTxBytes).0 :: Admissible(app, cached, raw)
    ensures var (kept, after, _) := FillResult(app, st, square, txs, maxTxBytes);
      var verdict := Checked(app, cached, Checking(st, 0, 0, 0), kept);
      verdict.Some? && verdict.value.st == after
  {
    var filtered := WithinBytes(app, txs, maxTxBytes);
    var s := Separate(app, filtered);
    SeparatedClasses(app, filtered);
    var (normal, blob, fibre) := Filled(app, st, square, txs, maxTxBytes);
    var kept := FillResult(app, st, square, txs, maxTxBytes).0;
    assert kept == normal.kept + blob.kept + fibre.kept;
    var c0 := Checking(st, 0, 0, 0);
    NormalStageAccepted(app, cached, c0, Filling(st, square, 0, []), s.normal);
    var c1 := Checked(app, cached, c0, normal.kept).value;
    BlobStageAccepted(app, cached, c1, Filling(normal.st, normal.square, 0, []), s.blobs, s.rawBlobs);
    var c2 := Checked(app, cached, c1, blob.kept).value;
    FibreStageAccepted(app, cached, c2, Filling(blob.st, blob.square, 0, []), s.fibre);
    CheckedConcat(app, cached, c0, normal.kept, blob.kept);
    CheckedConcat(app, cached, c0, normal.kept + blob.kept, fibre.kept);
  }

  // ----- everything kept comes from the input

  lemma {:induction false} KeptFromInput(app: App, f: Filling, txs: seq<Bytes>)
    ensures forall raw <- NormalStage(app, f, txs).kept :: raw in f.kept || raw in txs
    ensures forall raw <- FibreStage(app, f, txs).kept :: raw in f.kept || raw in txs
  {
    if txs != [] {
      var n := |txs| - 1;
      KeptFromInput(app, f, txs[..n]);
      assert txs == txs[..n] + [txs[n]];
    }
  }

  lemma {:induction false} KeptBlobsFromInput(app: App, f: Filling, btxs: seq<BlobTx>, raws: seq<Bytes>)
    requires |btxs| == |raws|
    ensures forall raw <- BlobStage(app, f, btxs, raws).kept :: raw in f.kept || raw in raws
  {
    if btxs != [] {
      var n := |btxs| - 1;
      KeptBlobsFromInput(app, f, btxs[..n], raws[..n]);
      assert raws == raws[..n] + [raws[n]];
    }
  }

  lemma {:induction false} SeparatedFromInput(app: App, txs: seq<Bytes>)
    ensures var s := Separate(app, txs);
      forall raw :: raw in s.normal || raw in s.rawBlobs || raw in s.fibre ==> raw in txs
  {
    if txs != [] {
      var n := |txs| - 1;
      SeparatedFromInput(app, txs[..n]);
      assert txs == txs[..n] + [txs[n]];
    }
  }

  lemma {:induction false} WithinBytesFromInput(app: App, txs: seq<Bytes>, maxTxBytes: int)
    ensures forall raw <- WithinBytes(app, txs, maxTxBytes) :: raw in txs
  {
    if txs != [] && maxTxBytes > 0 {
      var n := |txs| - 1;
      WithinBytesFromInput(app, txs[..n], maxTxBytes);
      assert txs == txs[..n] + [txs[n]];
    }
  }

  lemma {:induction false} FillKeepsInput(app: App, st: Store, square: Square, txs: seq<Bytes>, maxTxBytes: int)
    ensures forall raw <- FillResult(app, st, square, txs, maxTxBytes).0 :: raw in txs
  {
    var filtered := WithinBytes(app, txs, maxTxBytes);
    var s := Separate(app, filtered);
    SeparateAligned(app, filtered);
    var (normal, blob, fibre) := Filled(app, st, square, txs, maxTxBytes);
    WithinBytesFromInput(app, txs, maxTxBytes);
    SeparatedFromInput(app, filtered);
    KeptFromInput(app, Filling(st, square, 0, []), s.normal);
    KeptBlobsFromInput(app, Filling(normal.st, normal.square, 0, []), s.blobs, s.rawBlobs);
    KeptFromInput(app, Filling(blob.st, blob.square, 0, []), s.fibre);
  }

  /** Main result: transactions that all passed CheckTx are proposed in a list that ProcessProposal
      accepts, whatever its cache holds, and both end in the same store. */
  lemma {:induction false} CheckedTxsAreAccepted(app: App, cached: BlobTx -> bool, st: Store, square: Square,
                                                 txs: seq<Bytes>, maxTxBytes: int)
    requires AnteFailureIsInert(app) && forall raw <- txs :: PassesCheckTx(app, raw)
    ensures var (kept, after, _) := FillResult(app, st, square, txs, maxTxBytes);
      var verdict := Checked(app, cached, Checking(st, 0, 0, 0), kept);
      verdict.Some? && verdict.value.st == after
  {
    FillKeepsInput(app, st, square, txs, maxTxBytes);
    forall raw | raw in FillResult(app, st, square, txs, maxTxBytes).0 ensures Admissible(app, cached, raw) {
      assert PassesCheckTx(app, raw);
    }
    FillSimulates(app, cached, st, square, txs, maxTxBytes);
  }

  // ----- nothing is dropped without reason

  /** The square has room for the transaction. */
  predicate HasRoom(app: App, square: Square, raw: Bytes) {
    match app.unmarshalBlobTx(raw)
    case Malformed => false
    case Blob(btx) => app.admitBlobTx(square, btx) == Fits
    case NotBlob =>
      match TryParseFibreTx(app, raw)
      case NotFibre => app.admitTx(square, raw)
      case BadFibre => false
      case Fibre(ftx) => app.admitFibreTx(square, ftx) == Fits
  }

  /** `raw` is kept exactly when the checker, having accepted what is kept so far, accepts it too and the
      square has room for it. */
  predicate KeptExactly(app: App, cached: BlobTx -> bool, d: Checking, g: Filling, h: Filling, raw: Bytes) {
    if CheckStep(app, cached, d, raw).Some? && HasRoom(app, g.square, raw) then h.kept == g.kept + [raw] else Skipped(g, h)
  }

  lemma NormalStepExact(app: App, cached: BlobTx -> bool, d: Checking, g: Filling, raw: Bytes)
    requires AnteFailureIsInert(app) && IsNormal(app, raw) && g.st == d.st && g.count == d.sdkCount && Admissible(app, cached, raw)
    ensures KeptExactly(app, cached, d, g, NormalStep(app, g, raw), raw)
  {
    CountPFFZero(app.decode(raw).value.msgs);
  }

  lemma BlobStepExact(app: App, cached: BlobTx -> bool, d: Checking, g: Filling, btx: BlobTx, raw: Bytes)
    requires AnteFailureIsInert(app) && IsBlobPair(app, btx, raw) && g.st == d.st && g.count == d.pfbCount && Admissible(app, cached, raw)
    ensures KeptExactly(app, cached, d, g, BlobStep(app, g, btx, raw), raw)
  {
  }

  lemma FibreStepExact(app: App, cached: BlobTx -> bool, d: Checking, g: Filling, raw: Bytes)
    requires IsFibre(app, raw) && g.st == d.st && g.count == d.pffCount
    ensures KeptExactly(app, cached, d, g, FibreStep(app, g, raw), raw)
  {
    RecognisersAgree(app, app.decode(raw).value);
  }

  /** Main result: the plain stage keeps a transaction exactly when the checker would accept it after those
      kept before it and the square has room. */
  lemma {:induction false} NormalKeepsExactly(app: App, cached: BlobTx -> bool, c: Checking, f: Filling, txs: seq<Bytes>, i: nat)
    requires AnteFailureIsInert(app) && f.kept == [] && f.st == c.st && f.count == c.sdkCount && i < |txs|
    requires forall raw <- txs :: IsNormal(app, raw) && Admissible(app, cached, raw)
    ensures var g, h := NormalStage(app, f, txs[..i]), NormalStage(app, f, txs[..i + 1]);
      var d := Checked(app, cached, c, g.kept);
      d.Some? && KeptExactly(app, cached, d.value, g, h, txs[i])
  {
    var g := NormalStage(app, f, txs[..i]);
    KeptFromInput(app, f, txs[..i]);
    NormalStageAccepted(app, cached, c, f, txs[..i]);
    assert txs[..i + 1][..i] == txs[..i];
    NormalStepExact(app, cached, c.(st := g.st, sdkCount := g.count), g, txs[i]);
  }

  /** Main result: the same for the blob stage. */
  lemma {:induction false} BlobsKeepExactly(app: App, cached: BlobTx -> bool, c: Checking, f: Filling,
                                            btxs: seq<BlobTx>, raws: seq<Bytes>, i: nat)
    requires AnteFailureIsInert(app) && f.kept == [] && f.st == c.st && f.count == c.pfbCount && i < |btxs| == |raws|
    requires forall k :: 0 <= k < |btxs| ==> IsBlobPair(app, btxs[k], raws[k]) && Admissible(app, cached, raws[k])
    ensures var g, h := BlobStage(app, f, btxs[..i], raws[..i]), BlobStage(app, f, btxs[..i + 1], raws[..i + 1]);
      var d := Checked(app, cached, c, g.kept);
      d.Some? && KeptExactly(app, cached, d.value, g, h, raws[i])
  {
    var g := BlobStage(app, f, btxs[..i], raws[..i]);
    KeptBlobsFromInput(app, f, btxs[..i], raws[..i]);
    BlobStageAccepted(app, cached, c, f, btxs[..i], raws[..i]);
    assert btxs[..i + 1][..i] == btxs[..i] && raws[..i + 1][..i] == raws[..i];
    BlobStepExact(app, cached, c.(st := g.st, pfbCount := g.count), g, btxs[i], raws[i]);
  }

  /** Main result: the same for the fibre stage, which needs no admission beforehand. */
  lemma {:induction false} FibreKeepsExactly(app: App, cached: BlobTx -> bool, c: Checking, f: Filling, txs: seq<Bytes>, i: nat)
    requires f.kept == [] && f.st == c.st && f.count == c.pffCount && i < |txs| && forall raw <- txs :: IsFibre(app, raw)
    ensures var g, h := FibreStage(app, f, txs[..i]), FibreStage(app, f, txs[..i + 1]);
      var d := Checked(app, cached, c, g.kept);
      d.Some? && KeptExactly(app, cached, d.value, g, h, txs[i])
  {
    var g := FibreStage(app, f, txs[..i]);
    FibreStageAccepted(app, cached, c, f, txs[..i]);
    assert txs[..i + 1][..i] == txs[..i];
    FibreStepExact(app, cached, c.(st := g.st, pffCount := g.count), g, txs[i]);
  }

  // ----- the list fits the block

  lemma {:induction false} TotalSizeConcat(app: App, a: seq<Bytes>, b: seq<Bytes>)
    ensures TotalSize(app, a + b) == TotalSize(app, a) + TotalSize(app, b)
  {
    if b == [] {
      assert a + b == a;
    } else {
      var n := |b| - 1;
      TotalSizeConcat(app, a, b[..n]);
      assert (a + b)[..|a + b| - 1] == a + b[..n];
    }
  }

  lemma TotalSizePush(app: App, a: seq<Bytes>, x: Bytes)
    ensures TotalSize(app, a + [x]) == TotalSize(app, a) + app.protoSize(x)
  {
    assert (a + [x])[..|a|] == a;
  }

  lemma {:induction false} WithinBytesFits(app: App, txs: seq<Bytes>, maxTxBytes: int)
    requires maxTxBytes > 0
    ensures TotalSize(app, WithinBytes(app, txs, maxTxBytes)) <= maxTxBytes
  {
    if txs != [] {
      var n := |txs| - 1;
      WithinBytesFits(app, txs[..n], maxTxBytes);
      TotalSizePush(app, WithinBytes(app, txs[..n], maxTxBytes), txs[n]);
    }
  }

  function SeparatedTotal(app: App, s: Separated): nat {
    TotalSize(app, s.normal) + TotalSize(app, s.rawBlobs) + TotalSize(app, s.fibre)
  }

  lemma SeparateOneSize(app: App, s: Separated, raw: Bytes)
    ensures SeparatedTotal(app, SeparateOne(app, s, raw)) <= SeparatedTotal(app, s) + app.protoSize(raw)
  {
    TotalSizePush(app, s.normal, raw);
    TotalSizePush(app, s.rawBlobs, raw);
    TotalSizePush(app, s.fibre, raw);
  }

  lemma {:induction false} SeparatedSize(app: App, txs: seq<Bytes>)
    ensures SeparatedTotal(app, Separate(app, txs)) <= TotalSize(app, txs)
  {
    if txs != [] {
      var n := |txs| - 1;
      SeparatedSize(app, txs[..n]);
      SeparateOneSize(app, Separate(app, txs[..n]), txs[n]);
    }
  }

  lemma StepSize(app: App, f: Filling, raw: Bytes)
    ensures TotalSize(app, NormalStep(app, f, raw).kept) <= TotalSize(app, f.kept) + app.protoSize(raw)
    ensures TotalSize(app, FibreStep(app, f, raw).kept) <= TotalSize(app, f.kept) + app.protoSize(raw)
  {
    TotalSizePush(app, f.kept, raw);
  }

  lemma {:induction false} StageSize(app: App, f: Filling, txs: seq<Bytes>)
    ensures TotalSize(app, NormalStage(app, f, txs).kept) <= TotalSize(app, f.kept) + TotalSize(app, txs)
    ensures TotalSize(app, FibreStage(app, f, txs).kept) <= TotalSize(app, f.kept) + TotalSize(app, txs)
  {
    if txs != [] {
      var n := |txs| - 1;
      StageSize(app, f, txs[..n]);
      StepSize(app, NormalStage(app, f, txs[..n]), txs[n]);
      StepSize(app, FibreStage(app, f, txs[..n]), txs[n]);
    }
  }

  lemma {:induction false} BlobStageSize(app: App, f: Filling, btxs: seq<BlobTx>, raws: seq<Bytes>)
    requires |btxs| == |raws|
    ensures TotalSize(app, BlobStage(app, f, btxs, raws).kept) <= TotalSize(app, f.kept) + TotalSize(app, raws)
  {
    if btxs != [] {
      var n := |btxs| - 1;
      BlobStageSize(app, f, btxs[..n], raws[..n]);
      TotalSizePush(app, BlobStage(app, f, btxs[..n], raws[..n]).kept, raws[n]);
    }
  }

  /** Main result: the returned list fits a positive `maxTxBytes`. */
  lemma {:induction false} FillFitsBlock(app: App, st: Store, square: Square, txs: seq<Bytes>, maxTxBytes: int)
    requires maxTxBytes > 0
    ensures TotalSize(app, FillResult(app, st, square, txs, maxTxBytes).0) <= maxTxBytes
  {
    var filtered := WithinBytes(app, txs, maxTxBytes);
    var s := Separate(app, filtered);
    SeparateAligned(app, filtered);
    var (normal, blob, fibre) := Filled(app, st, square, txs, maxTxBytes);
    WithinBytesFits(app, txs, maxTxBytes);
    SeparatedSize(app, filtered);
    StageSize(app, Filling(st, square, 0, []), s.normal);
    BlobStageSize(app, Filling(normal.st, normal.square, 0, []), s.blobs, s.rawBlobs);
    StageSize(app, Filling(blob.st, blob.square, 0, []), s.fibre);
    TotalSizeConcat(app, normal.kept, blob.kept);
    TotalSizeConcat(app, normal.kept + blob.kept, fibre.kept);
  }

  // ----- the list rebuilds the proposer's square

  /** Appending one transaction as the checking side does: classify it, then let the builder admit it. */
  function RebuildStep(app: App, square: Square, raw: Bytes): Option<Square> {
    match TryParseFibreTx(app, raw)
    case BadFibre => None
    case Fibre(ftx) =>
      if app.admitFibreTx(square, ftx) == Fits then Some(square.(fibreTxs := square.fibreTxs + [ftx])) else None
    case NotFibre =>
      match app.unmarshalBlobTx(raw)
      case Malformed => None
      case Blob(btx) =>
        if app.admitBlobTx(square, btx) == Fits then Some(square.(blobTxs := square.blobTxs + [btx])) else None
      case NotBlob =>
        if app.admitTx(square, raw) then Some(square.(txs := square.txs + [raw])) else None
  }

  function Rebuilt(app: App, square: Square, txs: seq<Bytes>): Option<Square> {
    if txs == [] then
      Some(square)
    else
      var before := Rebuilt(app, square, txs[..|txs| - 1]);
      if before.None? then None else RebuildStep(app, before.value, txs[|txs| - 1])
  }

  lemma {:induction false} RebuiltConcat(app: App, square: Square, a: seq<Bytes>, b: seq<Bytes>)
    requires Rebuilt(app, square, a).Some?
    ensures Rebuilt(app, square, a + b) == Rebuilt(app, Rebuilt(app, square, a).value, b)
  {
    if b == [] {
      assert a + b == a;
    } else {
      var n := |b| - 1;
      RebuiltConcat(app, square, a, b[..n]);
      assert (a + b)[..|a + b| - 1] == a + b[..n];
    }
  }

  lemma {:induction false} NormalStageRebuilds(app: App, f: Filling, txs: seq<Bytes>)
    requires f.kept == [] && forall raw <- txs :: IsNormal(app, raw)
    ensures var g := NormalStage(app, f, txs);
      Rebuilt(app, f.square, g.kept) == Some(g.square)
  {
    if txs != [] {
      var n := |txs| - 1;
      var g, h, raw := NormalStage(app, f, txs[..n]), NormalStage(app, f, txs), txs[n];
      NormalStageRebuilds(app, f, txs[..n]);
      assert raw in txs;
      CountPFFZero(app.decode(raw).value.msgs);
      if h.kept != g.kept {
        assert h.kept[..|h.kept| - 1] == g.kept;
      }
    }
  }

  lemma {:induction false} BlobStageRebuilds(app: App, f: Filling, btxs: seq<BlobTx>, raws: seq<Bytes>)
    requires f.kept == [] && |btxs| == |raws| && forall i :: 0 <= i < |btxs| ==> IsBlobPair(app, btxs[i], raws[i])
    ensures var g := BlobStage(app, f, btxs, raws);
      Rebuilt(app, f.square, g.kept) == Some(g.square)
  {
    if btxs != [] {
      var n := |btxs| - 1;
      var g, h := BlobStage(app, f, btxs[..n], raws[..n]), BlobStage(app, f, btxs, raws);
      BlobStageRebuilds(app, f, btxs[..n], raws[..n]);
      assert IsBlobPair(app, btxs[n], raws[n]);
      if h.kept != g.kept {
        assert h.kept[..|h.kept| - 1] == g.kept;
      }
    }
  }

  lemma {:induction false} FibreStageRebuilds(app: App, f: Filling, txs: seq<Bytes>)
    requires f.kept == []
    ensures var g := FibreStage(app, f, txs);
      Rebuilt(app, f.square, g.kept) == Some(g.square)
  {
    if txs != [] {
      var n := |txs| - 1;
      var g, h := FibreStage(app, f, txs[..n]), FibreStage(app, f, txs);
      FibreStageRebuilds(app, f, txs[..n]);
      if h.kept != g.kept {
        assert h.kept[..|h.kept| - 1] == g.kept;
      }
    }
  }

  /** Main result: appending the returned list to the same builder, transaction by transaction, is
      admitted at every step and yields exactly the contents `Fill` left in its builder, all reverts
      undone. */
  lemma {:induction false} FillRebuildsSquare(app: App, st: Store, square: Square, txs: seq<Bytes>, maxTxBytes: int)
    ensures var (kept, _, built) := FillResult(app, st, square, txs, maxTxBytes);
      Rebuilt(app, square, kept) == Some(built)
  {
    var filtered := WithinBytes(app, txs, maxTxBytes);
    var s := Separate(app, filtered);
    SeparatedClasses(app, filtered);
    var (normal, blob, fibre) := Filled(app, st, square, txs, maxTxBytes);
    NormalStageRebuilds(app, Filling(st, square, 0, []), s.normal);
    BlobStageRebuilds(app, Filling(normal.st, normal.square, 0, []), s.blobs, s.rawBlobs);
    FibreStageRebuilds(app, Filling(blob.st, blob.square, 0, []), s.fibre);
    RebuiltConcat(app, square, normal.kept, blob.kept);
    RebuiltConcat(app, square, normal.kept + blob.kept, fibre.kept);
  }
}
