/** How long an uploaded shard stays in the store: the prune time chosen on upload
    (fibre/server_upload.go) and whole runs of the store's Put and PruneBefore (fibre/store.go). */
module ShardRetention {
  import opened Arithmetic
  import opened Basics
  import opened StoreIndex
  import opened StoreKeys

  /** When an uploaded shard may be pruned: never before its promise expires. */
  function ShardPruneAt(creation: nat, expiresAt: nat, retention: nat): (pruneAt: nat)
    ensures pruneAt >= expiresAt && pruneAt >= creation + retention
    ensures pruneAt == expiresAt || pruneAt == creation + retention
  {
    if expiresAt > creation + retention then expiresAt else creation + retention
  }

  /** Nanoseconds since the start of year 0. */
  type Time = nat

  const MINUTE := 60_000_000_000

  type Calendar = Time -> Stamp

  predicate InOrder(cal: Calendar, a: Time, b: Time) {
    && ValidStamp(cal(a)) && ValidStamp(cal(b))
    && (Before(cal(a), cal(b)) <==> a / MINUTE < b / MINUTE)
  }

  /** A calendar assigns valid fields to every minute, in order. */
  ghost predicate IsCalendar(cal: Calendar) {
    forall a: Time, b: Time :: InOrder(cal, a, b)
  }

  /** Where a mixed-radix numeral is split does not matter to its order. */
  lemma SplitOrder(x: nat, y: nat, k: nat)
    requires k > 0
    ensures x < y <==> x / k < y / k || (x / k == y / k && x % k < y % k)
  {
    if x / k < y / k {
      MulLe(x / k + 1, y / k, k);
    } else if y / k < x / k {
      MulLe(y / k + 1, x / k, k);
    }
  }

  /** A calendar of twelve months of 31 days. */
  function Uniform(t: Time): Stamp {
    var minutes := t / MINUTE;
    var hours := minutes / 60;
    var days := hours / 24;
    var months := days / 31;
    Stamp(months / 12, months % 12 + 1, days % 31 + 1, hours % 24, minutes % 60)
  }

  lemma {:induction false} UniformIsCalendar()
    ensures IsCalendar(Uniform)
  {
    forall a: Time, b: Time ensures InOrder(Uniform, a, b) {
      var x, y := a / MINUTE, b / MINUTE;
      SplitOrder(x, y, 60);
      SplitOrder(x / 60, y / 60, 24);
      SplitOrder(x / 60 / 24, y / 60 / 24, 31);
      SplitOrder(x / 60 / 24 / 31, y / 60 / 24 / 31, 12);
    }
  }

  datatype Op = PutOp(id: Id, size: nat, pruneAt: Time) | PruneOp(now: Time)

  function Applied(cal: Calendar, s: Contents, op: Op): Contents {
    match op
    case PutOp(id, size, pruneAt) => AfterPut(s, cal(pruneAt), id, size)
    case PruneOp(now) => AfterPrune(s, DueBefore(FormatTimestamp(cal(now))))
  }

  function After(cal: Calendar, ops: seq<Op>): Contents {
    if ops == [] then Contents([], {}, {}, map[]) else Applied(cal, After(cal, ops[..|ops| - 1]), ops[|ops| - 1])
  }

  /** Every time lies before year 10000, and commitments have their length. */
  ghost predicate Readable(cal: Calendar, ops: seq<Op>) {
    forall i :: 0 <= i < |ops| ==>
      match ops[i]
      case PutOp(id, _, pruneAt) => |id.0| == COMMITMENT_SIZE && cal(pruneAt).year < 10000
      case PruneOp(now) => cal(now).year < 10000
  }

  /** Every prune time is at or after the expiry of its promise, as ShardPruneAt makes it. */
  ghost predicate Honoring(expires: Id -> Time, ops: seq<Op>) {
    forall i :: 0 <= i < |ops| && ops[i].PutOp? ==> ops[i].pruneAt >= expires(ops[i].id)
  }

  // ----- what a run leaves in the index

  /** The prune time of a Put lies in an earlier minute. */
  predicate DueAt(put: Op, now: Time)
    requires put.PutOp?
  {
    put.pruneAt / MINUTE < now / MINUTE
  }

  /** Operation `k` is a Put, and no prune since was in a minute after its prune time. */
  predicate Standing(ops: seq<Op>, k: nat)
    requires k < |ops|
  {
    ops[k].PutOp? && forall j :: k < j < |ops| && ops[j].PruneOp? ==> !DueAt(ops[k], ops[j].now)
  }

  function KeyOf(cal: Calendar, put: Op): string
    requires put.PutOp?
  {
    PruneKey(cal(put.pruneAt), put.id.0, put.id.1)
  }

  ghost predicate StandsFor(cal: Calendar, ops: seq<Op>, k: nat, key: string) {
    k < |ops| && Standing(ops, k) && KeyOf(cal, ops[k]) == key
  }

  /** What a prune does to an entry that some Put wrote. */
  lemma {:induction false} VerdictOnPut(cal: Calendar, put: Op, now: Time)
    requires IsCalendar(cal) && put.PutOp? && Readable(cal, [put]) && cal(now).year < 10000
    ensures DueBefore(FormatTimestamp(cal(now)))(KeyOf(cal, put)) == if DueAt(put, now) then Some(put.id) else None
  {
    assert [put][0] == put;
    assert InOrder(cal, put.pruneAt, now);
    RemovedExactlyWhenEarlier(cal(put.pruneAt), put.id.0, put.id.1, cal(now));
  }

  lemma ReadableAt(cal: Calendar, ops: seq<Op>, i: nat)
    requires Readable(cal, ops) && i < |ops|
    ensures Readable(cal, [ops[i]])
  {
  }

  lemma {:induction false} IndexAfterPut(cal: Calendar, s: Contents, put: Op)
    requires put.PutOp? && ValidIndex(s.index)
    ensures var t := Applied(cal, s, put);
      ValidIndex(t.index) && KeySet(t.index) == KeySet(s.index) + {KeyOf(cal, put)}
  {
    KeyShape(cal(put.pruneAt), put.id.0, put.id.1);
    InsertIsValid(s.index, KeyOf(cal, put));
  }

  lemma {:induction false} IndexAfterPrune(cal: Calendar, s: Contents, now: Time, key: string)
    requires ValidIndex(s.index)
    ensures var t := Applied(cal, s, PruneOp(now));
      ValidIndex(t.index) &&
      (key in KeySet(t.index) <==> key in KeySet(s.index) && DueBefore(FormatTimestamp(cal(now)))(key).None?)
  {
    WithoutIsValid(s.index, RemovedKeys(s.index, DueBefore(FormatTimestamp(cal(now)))));
  }

  lemma {:induction false} IndexIsValid(cal: Calendar, ops: seq<Op>)
    ensures ValidIndex(After(cal, ops).index)
  {
    if ops != [] {
      var n := |ops| - 1;
      IndexIsValid(cal, ops[..n]);
      match ops[n]
      case PutOp(_, _, _) => IndexAfterPut(cal, After(cal, ops[..n]), ops[n]);
      case PruneOp(now) => IndexAfterPrune(cal, After(cal, ops[..n]), now, "");
    }
  }

  /** One more operation leaves a Put standing exactly when it is not a prune that finds it due. */
  lemma {:induction false} StandingStep(ops: seq<Op>, k: nat)
    requires k < |ops| - 1
    ensures var last := ops[|ops| - 1];
      Standing(ops, k) <==> Standing(ops[..|ops| - 1], k) && (last.PruneOp? ==> !DueAt(ops[k], last.now))
  {
    var n := |ops| - 1;
    assert forall j :: k < j < n ==> ops[..n][j] == ops[j];
  }

  lemma {:induction false} StandingKeyAfterPrune(cal: Calendar, ops: seq<Op>, key: string)
    requires IsCalendar(cal) && Readable(cal, ops) && ops != [] && ops[|ops| - 1].PruneOp?
    ensures var n := |ops| - 1;
      (exists k :: StandsFor(cal, ops, k, key)) <==>
      (exists k :: StandsFor(cal, ops[..n], k, key)) && DueBefore(FormatTimestamp(cal(ops[n].now)))(key).None?
  {
    var n := |ops| - 1;
    forall k | 0 <= k < n && ops[k].PutOp? && KeyOf(cal, ops[k]) == key
      ensures StandsFor(cal, ops, k, key) <==>
        StandsFor(cal, ops[..n], k, key) && DueBefore(FormatTimestamp(cal(ops[n].now)))(key).None?
    {
      StandingStep(ops, k);
      ReadableAt(cal, ops, k);
      VerdictOnPut(cal, ops[k], ops[n].now);
    }
  }

  lemma {:induction false} StandingKeyAfterPut(cal: Calendar, ops: seq<Op>, key: string)
    requires ops != [] && ops[|ops| - 1].PutOp?
    ensures var n := |ops| - 1;
      (exists k :: StandsFor(cal, ops, k, key)) <==>
      (exists k :: StandsFor(cal, ops[..n], k, key)) || key == KeyOf(cal, ops[n])
  {
    var n := |ops| - 1;
    forall k | 0 <= k < n ensures StandsFor(cal, ops, k, key) <==> StandsFor(cal, ops[..n], k, key) {
      StandingStep(ops, k);
    }
    assert StandsFor(cal, ops, n, key) <==> key == KeyOf(cal, ops[n]);
  }

  /** The index holds exactly the keys of the standing Puts. */
  lemma {:induction false} IndexIsStanding(cal: Calendar, ops: seq<Op>, key: string)
    requires IsCalendar(cal) && Readable(cal, ops)
    ensures key in KeySet(After(cal, ops).index) <==> exists k :: StandsFor(cal, ops, k, key)
  {
    if ops != [] {
      var n := |ops| - 1;
      IndexIsStanding(cal, ops[..n], key);
      IndexIsValid(cal, ops[..n]);
      match ops[n]
      case PutOp(_, _, _) =>
        IndexAfterPut(cal, After(cal, ops[..n]), ops[n]);
        StandingKeyAfterPut(cal, ops, key);
      case PruneOp(now) =>
        IndexAfterPrune(cal, After(cal, ops[..n]), now, key);
        StandingKeyAfterPrune(cal, ops, key);
    }
  }

  // ----- what a run leaves of the shards

  /** Some standing Put of the shard is due. */
  predicate Takes(ops: seq<Op>, id: Id, now: Time) {
    exists k :: 0 <= k < |ops| && Standing(ops, k) && ops[k].id == id && DueAt(ops[k], now)
  }

  /** Main result: a prune takes a shard if and only if the earliest prune time still in the index for it
      lies in an earlier minute; a later Put of the same shard does not postpone this. */
  lemma {:induction false} TakenExactlyWhenDue(cal: Calendar, ops: seq<Op>, id: Id, now: Time)
    requires IsCalendar(cal) && Readable(cal, ops) && cal(now).year < 10000
    ensures id in Gone(After(cal, ops).index, DueBefore(FormatTimestamp(cal(now)))) <==> Takes(ops, id, now)
  {
    var index, rule := After(cal, ops).index, DueBefore(FormatTimestamp(cal(now)));
    if id in Gone(index, rule) {
      var key :| key in index && rule(key).Some? && rule(key).value == id;
      assert key in KeySet(index);
      IndexIsStanding(cal, ops, key);
      var k: nat :| StandsFor(cal, ops, k, key);
      ReadableAt(cal, ops, k);
      VerdictOnPut(cal, ops[k], now);
    }
    if Takes(ops, id, now) {
      var k: nat :| k < |ops| && Standing(ops, k) && ops[k].id == id && DueAt(ops[k], now);
      ReadableAt(cal, ops, k);
      VerdictOnPut(cal, ops[k], now);
      assert StandsFor(cal, ops, k, KeyOf(cal, ops[k]));
      IndexIsStanding(cal, ops, KeyOf(cal, ops[k]));
      assert KeyOf(cal, ops[k]) in index;
    }
  }

  /** Operation `i` put the shard, and no prune since took it. */
  ghost predicate KeptSince(ops: seq<Op>, i: nat, id: Id) {
    && i < |ops| && ops[i].PutOp? && ops[i].id == id
    && forall j :: i < j < |ops| && ops[j].PruneOp? ==> !Takes(ops[..j], id, ops[j].now)
  }

  lemma {:induction false} KeptStep(ops: seq<Op>, i: nat, id: Id)
    requires i < |ops| - 1
    ensures var n := |ops| - 1;
      KeptSince(ops, i, id) <==> KeptSince(ops[..n], i, id) && (ops[n].PruneOp? ==> !Takes(ops[..n], id, ops[n].now))
  {
    var n := |ops| - 1;
    assert forall j :: i < j < n ==> ops[..n][j] == ops[j] && ops[..n][..j] == ops[..j];
  }

  ghost predicate Stored(ops: seq<Op>, id: Id) {
    exists i :: KeptSince(ops, i, id)
  }

  lemma {:induction false} StoredStep(ops: seq<Op>, id: Id)
    requires ops != []
    ensures var n := |ops| - 1;
      Stored(ops, id) <==>
        if ops[n].PutOp? then Stored(ops[..n], id) || ops[n].id == id
        else Stored(ops[..n], id) && !Takes(ops[..n], id, ops[n].now)
  {
    var n := |ops| - 1;
    forall i | 0 <= i < n
      ensures KeptSince(ops, i, id) <==>
        KeptSince(ops[..n], i, id) && (ops[n].PruneOp? ==> !Takes(ops[..n], id, ops[n].now))
    {
      KeptStep(ops, i, id);
    }
    assert KeptSince(ops, n, id) <==> ops[n].PutOp? && ops[n].id == id;
  }

  /** Main result: after every run of Puts and prunes a shard has its file, and its marker, if and only if
      some Put stored it and no prune since then took it. */
  lemma {:induction false} StoredExactly(cal: Calendar, ops: seq<Op>, id: Id)
    requires IsCalendar(cal) && Readable(cal, ops)
    ensures id in After(cal, ops).files <==> Stored(ops, id)
    ensures id in After(cal, ops).markers <==> Stored(ops, id)
  {
    if ops != [] {
      var n := |ops| - 1;
      StoredExactly(cal, ops[..n], id);
      StoredStep(ops, id);
      if ops[n].PruneOp? {
        TakenExactlyWhenDue(cal, ops[..n], id, ops[n].now);
      }
    }
  }

  // ----- what that means for a promise

  /** A prune takes only shards whose promise has expired. */
  lemma {:induction false} PrunedMeansExpired(cal: Calendar, expires: Id -> Time, ops: seq<Op>, id: Id, now: Time)
    requires IsCalendar(cal) && Readable(cal, ops) && Honoring(expires, ops) && cal(now).year < 10000
    requires id in Gone(After(cal, ops).index, DueBefore(FormatTimestamp(cal(now))))
    ensures expires(id) < now
  {
    TakenExactlyWhenDue(cal, ops, id, now);
  }

  /** Main result: a stored shard stays, with its marker, through every prune up to the expiry of its
      promise, whatever else is put and pruned. */
  lemma {:induction false} KeptWhileUnexpired(cal: Calendar, expires: Id -> Time, ops: seq<Op>, i: nat)
    requires IsCalendar(cal) && Readable(cal, ops) && Honoring(expires, ops)
    requires i < |ops| && ops[i].PutOp?
    requires forall j :: i < j < |ops| && ops[j].PruneOp? ==> ops[j].now <= expires(ops[i].id)
    ensures ops[i].id in After(cal, ops).files && ops[i].id in After(cal, ops).markers
  {
    var id := ops[i].id;
    assert KeptSince(ops, i, id) by {
      forall j | i < j < |ops| && ops[j].PruneOp? ensures !Takes(ops[..j], id, ops[j].now) {
        assert forall k :: 0 <= k < j ==> ops[..j][k] == ops[k];
      }
    }
    StoredExactly(cal, ops, id);
  }

  /** A prune after the prune time takes the shard, unless an earlier prune did. */
  lemma {:induction false} DueIsTaken(ops: seq<Op>, i: nat, j: nat) returns (first: nat)
    requires i < j < |ops| && ops[i].PutOp? && ops[j].PruneOp? && DueAt(ops[i], ops[j].now)
    ensures i < first <= j && ops[first].PruneOp? && Takes(ops[..first], ops[i].id, ops[first].now)
    decreases j
  {
    assert ops[..j][i] == ops[i];
    if Standing(ops[..j], i) {
      first := j;
    } else {
      var k :| i < k < j && ops[..j][k].PruneOp? && DueAt(ops[i], ops[..j][k].now);
      first := DueIsTaken(ops, i, k);
    }
  }

  /** Main result: the first prune in a minute after all prune times of a shard removes it. */
  lemma {:induction false} GoneOnceDue(cal: Calendar, ops: seq<Op>, now: Time, id: Id)
    requires IsCalendar(cal) && Readable(cal, ops + [PruneOp(now)])
    requires forall j :: 0 <= j < |ops| && ops[j].PutOp? && ops[j].id == id ==> DueAt(ops[j], now)
    ensures var t := After(cal, ops + [PruneOp(now)]); id !in t.files && id !in t.markers
  {
    var all := ops + [PruneOp(now)];
    StoredExactly(cal, all, id);
    if Stored(all, id) {
      var i: nat :| KeptSince(all, i, id);
      assert all[i] == ops[i];
      var first := DueIsTaken(all, i, |ops|);
    }
  }

  /** A shard put again under a longer retention still goes at its first prune time. */
  lemma {:induction false} EarlierRetentionWins(cal: Calendar, id: Id, size: nat, early: Time, late: Time, now: Time)
    requires IsCalendar(cal) && early / MINUTE < now / MINUTE <= late / MINUTE
    requires Readable(cal, [PutOp(id, size, early), PutOp(id, size, late), PruneOp(now)])
    ensures var ops := [PutOp(id, size, early), PutOp(id, size, late), PruneOp(now)];
      Standing(ops, 1) && id !in After(cal, ops).files && id !in After(cal, ops).markers
  {
    var ops := [PutOp(id, size, early), PutOp(id, size, late), PruneOp(now)];
    StoredExactly(cal, ops, id);
    assert ops[..2][0] == ops[0];
    assert Standing(ops[..2], 0);
    assert Takes(ops[..2], id, now);
    assert ops[2].PruneOp?;
    forall i: nat ensures !KeptSince(ops, i, id) {
    }
  }

  /** Every shard on disk has an entry in the index that will remove it. */
  lemma {:induction false} FilesAreIndexed(cal: Calendar, ops: seq<Op>, id: Id) returns (i: nat)
    requires IsCalendar(cal) && Readable(cal, ops) && id in After(cal, ops).files
    ensures i < |ops| && ops[i].PutOp? && ops[i].id == id && KeyOf(cal, ops[i]) in KeySet(After(cal, ops).index)
  {
    StoredExactly(cal, ops, id);
    i :| KeptSince(ops, i, id);
    if !Standing(ops, i) {
      var j :| i < j < |ops| && ops[j].PruneOp? && DueAt(ops[i], ops[j].now);
      var first := DueIsTaken(ops, i, j);
    }
    assert StandsFor(cal, ops, i, KeyOf(cal, ops[i]));
    IndexIsStanding(cal, ops, KeyOf(cal, ops[i]));
  }
}
