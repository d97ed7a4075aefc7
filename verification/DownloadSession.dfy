/** One download session (fibre/download.go): a dispatcher that reserves rows from validators, workers
    that add or skip a shard, and the one-slot channel that wakes the dispatcher.

    Every transition of `Next` is one atomic step of the source: a critical section under the session's
    or the reconstructor's mutex, one write to the row slots, or one channel operation.  A run is any
    interleaving of such steps. */
module DownloadSession {
  import opened Basics

  /** The session's fixed parameters.  `expected[i]` is the row count reserved for validator `i` of the
      selected list; `maxRowSize` 0 means no limit. */
  datatype Config = Config(expected: seq<nat>, originalRows: nat, totalRows: nat, maxRowSize: nat)

  /** Where worker `i` stands.  `Adding` has marked its novel rows as seen but not stored them;
      `Releasing` is about to return its reservation; `Signaling` lies between the decrement and the
      send on the channel. */
  datatype Worker = Fetching | Adding(novel: set<nat>, rowLen: nat) | Releasing | Signaling | Done

  /** Where the dispatcher stands in its loop. */
  datatype Dispatcher = AtReady | AtPick | Parked | Stopped | Cancelled

  /** `rowLen` is the row length the verifier accepted first, `slab` the slot size of the slab. */
  datatype State = State(
    disp: Dispatcher,
    cursor: nat,
    inflight: int,
    token: bool,
    workers: seq<Worker>,
    seen: set<nat>,
    rowLen: Option<nat>,
    slab: Option<nat>,
    slots: map<nat, nat>)

  function Begin(): State {
    State(AtReady, 0, 0, false, [], {}, None, None, map[])
  }

  /** Rows still wanted by the reconstructor. */
  function Want(cfg: Config, s: State): nat {
    if |s.seen| >= cfg.originalRows then 0 else cfg.originalRows - |s.seen|
  }

  predicate Ready(cfg: Config, s: State) {
    s.inflight <= 0 && (Want(cfg, s) == 0 || s.cursor >= |cfg.expected|)
  }

  predicate CanPick(cfg: Config, s: State) {
    s.cursor < |cfg.expected| && Want(cfg, s) > s.inflight
  }

  /** The steps.  `Accept` is a worker whose shard verified; `Reject` one whose request, parsing or
      verification failed. */
  datatype Step =
    | CheckReady
    | TryPick
    | Wake
    | Cancel
    | Accept(worker: nat, indices: set<nat>, len: nat)
    | Reject(worker: nat)
    | StoreRows(worker: nat)
    | Release(worker: nat)
    | Signal(worker: nat)

  /** `step` can be taken in `s`.  An accepted shard is non-empty, its indices are in range, and once a
      shard was accepted the verifier accepts only that row length; `VerifiedDownload` proves that this is
      so for whatever the reconstructor accepts. */
  predicate Enabled(cfg: Config, s: State, step: Step) {
    && |s.workers| == s.cursor <= |cfg.expected|
    && match step
       case CheckReady => s.disp == AtReady
       case TryPick => s.disp == AtPick
       case Wake => s.disp == Parked && s.token
       case Cancel => s.disp == Parked
       case Accept(w, indices, len) =>
         && w < |s.workers| && s.workers[w] == Fetching
         && indices != {} && (forall i <- indices :: i < cfg.totalRows)
         && (s.rowLen == None || s.rowLen == Some(len))
       case Reject(w) => w < |s.workers| && s.workers[w] == Fetching
       case StoreRows(w) => w < |s.workers| && s.workers[w].Adding?
       case Release(w) => w < |s.workers| && s.workers[w] == Releasing
       case Signal(w) => w < |s.workers| && s.workers[w] == Signaling
  }

  predicate TooLong(cfg: Config, len: nat) {
    cfg.maxRowSize > 0 && len > cfg.maxRowSize
  }

  function SetWorker(s: State, w: nat, k: Worker): State
    requires w < |s.workers|
  {
    s.(workers := s.workers[w := k])
  }

  /** The slab is acquired with the first stored rows and its slot size never changes. */
  function SlabFor(s: State, len: nat): nat {
    if s.slab.Some? then s.slab.value else len
  }

  /** The worker's rows are marked as seen. */
  function Accepted(s: State, w: nat, indices: set<nat>, len: nat): State
    requires w < |s.workers|
  {
    SetWorker(s, w, Adding(indices - s.seen, len)).(seen := s.seen + indices, rowLen := Some(len))
  }

  function Next(cfg: Config, s: State, step: Step): State
    requires Enabled(cfg, s, step)
  {
    match step
    case CheckReady => s.(disp := if Ready(cfg, s) then Stopped else AtPick)
    case TryPick =>
      if CanPick(cfg, s) then
        s.(disp := AtReady, cursor := s.cursor + 1, inflight := s.inflight + cfg.expected[s.cursor],
           workers := s.workers + [Fetching])
      else
        s.(disp := Parked)
    case Wake => s.(disp := AtReady, token := false)
    case Cancel => s.(disp := Cancelled)
    case Accept(w, indices, len) => Accepted(s, w, indices, len)
    case Reject(w) => SetWorker(s, w, Releasing)
    case StoreRows(w) =>
      var novel, len := s.workers[w].novel, s.workers[w].rowLen;
      if novel == {} || TooLong(cfg, len) then
        SetWorker(s, w, Releasing)
      else
        SetWorker(s, w, Releasing).(slab := Some(SlabFor(s, len)), slots := s.slots + (map i | i in novel :: len))
    case Release(w) => SetWorker(s, w, Signaling).(inflight := s.inflight - cfg.expected[w])
    case Signal(w) => SetWorker(s, w, Done).(token := true)
  }

  // ----- the invariant

  predicate Unreleased(k: Worker) {
    k == Fetching || k.Adding? || k == Releasing
  }

  /** Reservations of the first `n` workers that have not been returned. */
  function Reserved(cfg: Config, ws: seq<Worker>, n: nat): nat
    requires n <= |ws| <= |cfg.expected|
  {
    if n == 0 then 0 else Reserved(cfg, ws, n - 1) + (if Unreleased(ws[n - 1]) then cfg.expected[n - 1] else 0)
  }

  predicate SomeSignaling(s: State) {
    Signaling in s.workers
  }

  /** No wake-up is lost: what the dispatcher found when it looked still holds, unless a token is in the
      channel or a worker is about to put one there. */
  predicate NoLostWakeup(cfg: Config, s: State) {
    s.token || SomeSignaling(s) ||
      match s.disp
      case AtPick => !Ready(cfg, s)
      case Parked => s.inflight > 0 && !CanPick(cfg, s)
      case _ => true
  }

  /** Rows some worker has marked as seen and is about to store. */
  predicate Pending(s: State, i: nat) {
    exists w :: 0 <= w < |s.workers| && s.workers[w].Adding? && i in s.workers[w].novel
  }

  ghost predicate RowsAccounted(cfg: Config, s: State) {
    && (forall w, i :: 0 <= w < |s.workers| && s.workers[w].Adding? && i in s.workers[w].novel ==>
          i in s.seen && i !in s.slots)
    && (forall w, v, i :: 0 <= w < v < |s.workers| && s.workers[w].Adding? && s.workers[v].Adding? ==>
          !(i in s.workers[w].novel && i in s.workers[v].novel))
    && (forall w :: 0 <= w < |s.workers| && s.workers[w].Adding? ==> s.rowLen == Some(s.workers[w].rowLen))
    && (forall i <- s.slots :: i in s.seen && s.rowLen == Some(s.slots[i]))
    && (s.rowLen == None ==> s.seen == {})
    && (s.slab.Some? ==> s.rowLen == s.slab && !TooLong(cfg, s.slab.value))
    && (s.slots != map[] ==> s.slab.Some?)
    && (s.rowLen.Some? && !TooLong(cfg, s.rowLen.value) ==>
          forall i <- s.seen :: i in s.slots || Pending(s, i))
    && (s.rowLen.Some? && TooLong(cfg, s.rowLen.value) ==> s.slots == map[])
  }

  ghost predicate Inv(cfg: Config, s: State) {
    && |s.workers| == s.cursor <= |cfg.expected|
    && s.inflight == Reserved(cfg, s.workers, |s.workers|)
    && NoLostWakeup(cfg, s)
    && RowsAccounted(cfg, s)
    && (s.disp == Stopped ==> Ready(cfg, s))
  }

  /** Every reservation the source makes is positive: every validator is assigned at least one row. */
  predicate PositiveReservations(cfg: Config) {
    forall n <- cfg.expected :: n > 0
  }

  /** What worker `w` still holds reserved when it stands at `k`. */
  function Holding(cfg: Config, w: nat, k: Worker): int
    requires w < |cfg.expected|
  {
    if Unreleased(k) then cfg.expected[w] else 0
  }

  lemma {:induction false} ReservedUpdate(cfg: Config, ws: seq<Worker>, w: nat, k: Worker, n: nat)
    requires w < |ws| <= |cfg.expected| && n <= |ws|
    ensures Reserved(cfg, ws[w := k], n)
         == Reserved(cfg, ws, n) + (if w < n then Holding(cfg, w, k) - Holding(cfg, w, ws[w]) else 0)
  {
    if n > 0 {
      ReservedUpdate(cfg, ws, w, k, n - 1);
    }
  }

  lemma {:induction false} ReservedPush(cfg: Config, ws: seq<Worker>, k: Worker, n: nat)
    requires |ws| < |cfg.expected| && n <= |ws|
    ensures Reserved(cfg, ws + [k], n) == Reserved(cfg, ws, n)
  {
    if n > 0 {
      ReservedPush(cfg, ws, k, n - 1);
    }
  }

  /** A worker that still holds its reservation keeps the in-flight count positive, and conversely. */
  lemma {:induction false} ReservedPositive(cfg: Config, ws: seq<Worker>, n: nat)
    requires n <= |ws| <= |cfg.expected| && PositiveReservations(cfg)
    ensures Reserved(cfg, ws, n) > 0 <==> exists w :: 0 <= w < n && Unreleased(ws[w])
  {
    if n > 0 {
      ReservedPositive(cfg, ws, n - 1);
      assert cfg.expected[n - 1] in cfg.expected;
    }
  }

  // ----- every step keeps the invariant

  lemma {:induction false} StepKeepsReservations(cfg: Config, s: State, step: Step)
    requires Inv(cfg, s) && Enabled(cfg, s, step)
    ensures var t := Next(cfg, s, step);
      && |t.workers| == t.cursor <= |cfg.expected|
      && t.inflight == Reserved(cfg, t.workers, |t.workers|)
  {
    match step
    case TryPick =>
      if CanPick(cfg, s) {
        ReservedPush(cfg, s.workers, Fetching, |s.workers|);
      }
    case Accept(w, indices, len) => ReservedUpdate(cfg, s.workers, w, Adding(indices - s.seen, len), |s.workers|);
    case Reject(w) => ReservedUpdate(cfg, s.workers, w, Releasing, |s.workers|);
    case StoreRows(w) => ReservedUpdate(cfg, s.workers, w, Releasing, |s.workers|);
    case Release(w) => ReservedUpdate(cfg, s.workers, w, Signaling, |s.workers|);
    case Signal(w) => ReservedUpdate(cfg, s.workers, w, Done, |s.workers|);
    case _ =>
  }

  lemma SignalingPersists(s: State, w: nat, k: Worker)
    requires w < |s.workers| && s.workers[w] != Signaling
    ensures SomeSignaling(s) ==> SomeSignaling(SetWorker(s, w, k))
  {
    if SomeSignaling(s) {
      var i :| 0 <= i < |s.workers| && s.workers[i] == Signaling;
      assert s.workers[w := k][i] == Signaling;
    }
  }

  lemma MoreSeen(a: set<nat>, b: set<nat>)
    ensures |a| <= |a + b|
  {
    assert a + b == a + (b - a);
  }

  lemma {:induction false} StepKeepsWakeup(cfg: Config, s: State, step: Step)
    requires Inv(cfg, s) && Enabled(cfg, s, step) && PositiveReservations(cfg)
    ensures NoLostWakeup(cfg, Next(cfg, s, step))
  {
    var t := Next(cfg, s, step);
    ReservedPositive(cfg, s.workers, |s.workers|);
    match step
    case CheckReady =>
    case TryPick =>
      if !CanPick(cfg, s) {
        assert t.workers == s.workers;
        if !t.token && !SomeSignaling(t) {
          assert !Ready(cfg, s);
        }
      }
    case Wake =>
    case Cancel =>
    case Accept(w, indices, len) =>
      SignalingPersists(s, w, Adding(indices - s.seen, len));
      MoreSeen(s.seen, indices);
      assert Unreleased(s.workers[w]);
    case Reject(w) => SignalingPersists(s, w, Releasing);
    case StoreRows(w) => SignalingPersists(s, w, Releasing);
    case Release(w) => assert t.workers[w] == Signaling;
    case Signal(w) =>
  }

  lemma {:induction false} AcceptKeepsRows(cfg: Config, s: State, w: nat, indices: set<nat>, len: nat)
    requires Inv(cfg, s) && Enabled(cfg, s, Accept(w, indices, len))
    ensures RowsAccounted(cfg, Next(cfg, s, Accept(w, indices, len)))
  {
    var t := Next(cfg, s, Accept(w, indices, len));
    if !TooLong(cfg, len) {
      forall i | i in t.seen ensures i in t.slots || Pending(t, i) {
        if i in s.seen {
          PendingPersists(s, t, w, i);
        } else {
          assert i in t.workers[w].novel;
        }
      }
    }
  }

  /** A row pending at another worker stays pending. */
  lemma PendingPersists(s: State, t: State, w: nat, i: nat)
    requires w < |s.workers| == |t.workers| && forall v :: 0 <= v < |s.workers| && v != w ==> t.workers[v] == s.workers[v]
    requires !(s.workers[w].Adding? && i in s.workers[w].novel)
    ensures Pending(s, i) ==> Pending(t, i)
  {
    if Pending(s, i) {
      var v :| 0 <= v < |s.workers| && s.workers[v].Adding? && i in s.workers[v].novel;
      assert t.workers[v] == s.workers[v];
    }
  }

  /** A worker that has nothing to store, or rows that are too long, fills no slot. */
  lemma {:induction false} SkippingKeepsRows(cfg: Config, s: State, w: nat)
    requires RowsAccounted(cfg, s) && w < |s.workers| && s.workers[w].Adding?
    requires s.workers[w].novel == {} || TooLong(cfg, s.workers[w].rowLen)
    ensures RowsAccounted(cfg, SetWorker(s, w, Releasing))
  {
    var t := SetWorker(s, w, Releasing);
    if s.workers[w].novel == {} {
      forall i ensures Pending(s, i) ==> Pending(t, i) {
        PendingPersists(s, t, w, i);
      }
    }
  }

  lemma {:induction false} FillingKeepsRows(cfg: Config, s: State, w: nat)
    requires Inv(cfg, s) && Enabled(cfg, s, StoreRows(w))
    requires s.workers[w].novel != {} && !TooLong(cfg, s.workers[w].rowLen)
    ensures RowsAccounted(cfg, Next(cfg, s, StoreRows(w)))
  {
    var t := Next(cfg, s, StoreRows(w));
    forall i | i in t.seen ensures i in t.slots || Pending(t, i) {
      if i !in s.workers[w].novel {
        PendingPersists(s, t, w, i);
      }
    }
  }

  lemma {:induction false} StoreKeepsRows(cfg: Config, s: State, w: nat)
    requires Inv(cfg, s) && Enabled(cfg, s, StoreRows(w))
    ensures RowsAccounted(cfg, Next(cfg, s, StoreRows(w)))
  {
    if s.workers[w].novel == {} || TooLong(cfg, s.workers[w].rowLen) {
      SkippingKeepsRows(cfg, s, w);
    } else {
      FillingKeepsRows(cfg, s, w);
    }
  }

  /** A step that leaves rows, slots and the workers that are adding as they were. */
  predicate LeavesRows(s: State, t: State) {
    && t.seen == s.seen && t.rowLen == s.rowLen && t.slab == s.slab && t.slots == s.slots
    && |s.workers| <= |t.workers|
    && (forall w :: 0 <= w < |s.workers| && s.workers[w].Adding? ==> t.workers[w] == s.workers[w])
    && (forall w :: 0 <= w < |t.workers| && t.workers[w].Adding? ==> w < |s.workers| && t.workers[w] == s.workers[w])
  }

  lemma {:induction false} LeavesRowsAccounted(cfg: Config, s: State, t: State)
    requires RowsAccounted(cfg, s) && LeavesRows(s, t)
    ensures RowsAccounted(cfg, t)
  {
    forall i | Pending(s, i) ensures Pending(t, i) {
      var v :| 0 <= v < |s.workers| && s.workers[v].Adding? && i in s.workers[v].novel;
      assert t.workers[v] == s.workers[v];
    }
  }

  lemma {:induction false} OtherStepsKeepRows(cfg: Config, s: State, step: Step)
    requires Inv(cfg, s) && Enabled(cfg, s, step) && !step.Accept? && !step.StoreRows?
    ensures RowsAccounted(cfg, Next(cfg, s, step))
  {
    assert LeavesRows(s, Next(cfg, s, step));
    LeavesRowsAccounted(cfg, s, Next(cfg, s, step));
  }

  lemma {:induction false} StepKeepsInv(cfg: Config, s: State, step: Step)
    requires Inv(cfg, s) && Enabled(cfg, s, step) && PositiveReservations(cfg)
    ensures Inv(cfg, Next(cfg, s, step))
  {
    StepKeepsReservations(cfg, s, step);
    StepKeepsWakeup(cfg, s, step);
    if step.Accept? {
      AcceptKeepsRows(cfg, s, step.worker, step.indices, step.len);
    } else if step.StoreRows? {
      StoreKeepsRows(cfg, s, step.worker);
    } else {
      OtherStepsKeepRows(cfg, s, step);
    }
    StoppedStaysReady(cfg, s, step);
  }

  /** Once dispatch has stopped no worker holds a reservation, so nothing can change readiness. */
  lemma {:induction false} StoppedStaysReady(cfg: Config, s: State, step: Step)
    requires Inv(cfg, s) && Enabled(cfg, s, step) && PositiveReservations(cfg)
    ensures Next(cfg, s, step).disp == Stopped ==> Ready(cfg, Next(cfg, s, step))
  {
    if s.disp == Stopped {
      ReservedPositive(cfg, s.workers, |s.workers|);
      assert forall w :: 0 <= w < |s.workers| ==> !Unreleased(s.workers[w]);
    }
  }

  // ----- whole runs

  /** The state after the steps, taken one after another from the beginning; None if some step was not
      enabled. */
  function After(cfg: Config, steps: seq<Step>): Option<State> {
    if steps == [] then
      Some(Begin())
    else
      var before, step := After(cfg, steps[..|steps| - 1]), steps[|steps| - 1];
      if before.Some? && Enabled(cfg, before.value, step) then Some(Next(cfg, before.value, step)) else None
  }

  lemma StepExtendsRun(cfg: Config, steps: seq<Step>, s: State, step: Step)
    requires After(cfg, steps) == Some(s) && Enabled(cfg, s, step)
    ensures After(cfg, steps + [step]) == Some(Next(cfg, s, step))
    ensures var t := Next(cfg, s, step); |t.workers| == t.cursor <= |cfg.expected|
  {
    assert (steps + [step])[..|steps|] == steps;
  }

  lemma {:induction false} RunKeepsInv(cfg: Config, steps: seq<Step>)
    requires PositiveReservations(cfg) && After(cfg, steps).Some?
    ensures Inv(cfg, After(cfg, steps).value)
  {
    if steps != [] {
      var n := |steps| - 1;
      RunKeepsInv(cfg, steps[..n]);
      StepKeepsInv(cfg, After(cfg, steps[..n]).value, steps[n]);
    }
  }

  /** Main result: in every run, if the dispatcher is parked with no token in the channel and no worker
      between its decrement and its signal, then the dispatcher can neither finish nor pick, and some
      worker still holds a reservation.  The in-flight count is the sum of unreturned reservations. */
  lemma {:induction false} NoWakeupIsLost(cfg: Config, steps: seq<Step>)
    requires PositiveReservations(cfg) && After(cfg, steps).Some?
    ensures var s := After(cfg, steps).value;
      && |s.workers| <= |cfg.expected|
      && s.inflight == Reserved(cfg, s.workers, |s.workers|)
      && (s.disp == Parked && !s.token && Signaling !in s.workers ==>
            && !Ready(cfg, s)
            && !CanPick(cfg, s)
            && exists w :: 0 <= w < |s.workers| && Unreleased(s.workers[w]))
  {
    RunKeepsInv(cfg, steps);
    var s := After(cfg, steps).value;
    ReservedPositive(cfg, s.workers, |s.workers|);
  }

  /** Main result: when dispatch stops, every worker has stored what it had to store.  Every filled slot
      holds a seen row, of the slab's slot size; and the filled slots are all the seen rows if and only
      if nothing was seen or the accepted row length is within the limit. */
  lemma {:induction false} StoppedMeansStored(cfg: Config, steps: seq<Step>)
    requires PositiveReservations(cfg) && After(cfg, steps).Some? && After(cfg, steps).value.disp == Stopped
    ensures var s := After(cfg, steps).value;
      && (forall w :: 0 <= w < |s.workers| ==> s.workers[w] == Signaling || s.workers[w] == Done)
      && (Want(cfg, s) == 0 || |s.workers| == |cfg.expected|)
      && (forall i <- s.slots :: i in s.seen && s.slab == Some(s.slots[i]))
      && (s.slots.Keys == s.seen <==> s.seen == {} || (s.rowLen.Some? && !TooLong(cfg, s.rowLen.value)))
  {
    RunKeepsInv(cfg, steps);
    var s := After(cfg, steps).value;
    ReservedPositive(cfg, s.workers, |s.workers|);
    assert forall w :: 0 <= w < |s.workers| ==> !Unreleased(s.workers[w]);
    forall i ensures !Pending(s, i) {
    }
  }

  lemma {:induction false} OversizedRowIsSeen(cfg: Config)
    requires cfg == Config([1], 1, 1, 1)
    ensures After(cfg, [CheckReady, TryPick, Accept(0, {0}, 2)]) ==
      Some(Begin().(cursor := 1, inflight := 1, workers := [Adding({0}, 2)], seen := {0}, rowLen := Some(2)))
  {
    var s := Begin().(cursor := 1, inflight := 1, workers := [Fetching]);
    StepExtendsRun(cfg, [], Begin(), CheckReady);
    StepExtendsRun(cfg, [CheckReady], Begin().(disp := AtPick), TryPick);
    assert Next(cfg, Begin().(disp := AtPick), TryPick).workers == s.workers;
    StepExtendsRun(cfg, [CheckReady, TryPick], s, Accept(0, {0}, 2));
    assert Next(cfg, s, Accept(0, {0}, 2)).workers == [Adding({0}, 2)] && s.seen + {0} == {0};
  }

  /** Where the limit bites: one validator, one row of two bytes, a limit of one.  Dispatch stops with the
      row counted as seen, nothing more wanted, and no slot filled. */
  lemma {:induction false} OversizedRowIsSeenNotStored()
    ensures var cfg := Config([1], 1, 1, 1);
      var s := After(cfg, [CheckReady, TryPick, Accept(0, {0}, 2), StoreRows(0), Release(0), CheckReady]);
      && PositiveReservations(cfg)
      && s.Some? && s.value.disp == Stopped && Want(cfg, s.value) == 0
      && s.value.seen == {0} && s.value.slots == map[]
  {
    var cfg, run := Config([1], 1, 1, 1), [CheckReady, TryPick, Accept(0, {0}, 2)];
    OversizedRowIsSeen(cfg);
    var s := After(cfg, run).value;
    StepExtendsRun(cfg, run, s, StoreRows(0));
    assert Next(cfg, s, StoreRows(0)).workers == [Releasing];
    var t := s.(workers := [Releasing]);
    StepExtendsRun(cfg, run + [StoreRows(0)], t, Release(0));
    assert Next(cfg, t, Release(0)).workers == [Signaling];
    StepExtendsRun(cfg, run + [StoreRows(0)] + [Release(0)], t.(workers := [Signaling], inflight := 0), CheckReady);
    assert run + [StoreRows(0)] + [Release(0)] + [CheckReady] ==
      [CheckReady, TryPick, Accept(0, {0}, 2), StoreRows(0), Release(0), CheckReady];
  }

  lemma {:induction false} StepKeepsLength(cfg: Config, s: State, step: Step)
    requires Enabled(cfg, s, step)
    ensures var t := Next(cfg, s, step);
      && (s.rowLen.Some? ==> t.rowLen == s.rowLen)
      && (s.slab.Some? ==> t.slab == s.slab)
      && s.seen <= t.seen && s.slots.Keys <= t.slots.Keys
  {
  }

  /** Once a row length is accepted it never changes, and neither does the slab's slot size. */
  lemma {:induction false} AcceptedLengthIsFixed(cfg: Config, steps: seq<Step>, more: seq<Step>)
    requires After(cfg, steps + more).Some? && After(cfg, steps).Some?
    ensures var s, t := After(cfg, steps).value, After(cfg, steps + more).value;
      && (s.rowLen.Some? ==> t.rowLen == s.rowLen)
      && (s.slab.Some? ==> t.slab == s.slab)
      && s.seen <= t.seen && s.slots.Keys <= t.slots.Keys
  {
    if more == [] {
      assert steps + more == steps;
    } else {
      var n := |more| - 1;
      assert (steps + more)[..|steps + more| - 1] == steps + more[..n];
      AcceptedLengthIsFixed(cfg, steps, more[..n]);
      StepKeepsLength(cfg, After(cfg, steps + more[..n]).value, more[n]);
    }
  }

  // ----- every run ends, and it ends with dispatch stopped

  function WorkLeft(k: Worker): nat {
    match k
    case Fetching => 7
    case Adding(_, _) => 6
    case Releasing => 5
    case Signaling => 4
    case Done => 0
  }

  function DispatchLeft(d: Dispatcher): nat {
    match d
    case AtReady => 3
    case AtPick => 2
    case Parked => 1
    case _ => 0
  }

  function WorkSum(ws: seq<Worker>, n: nat): nat
    requires n <= |ws|
  {
    if n == 0 then 0 else WorkSum(ws, n - 1) + WorkLeft(ws[n - 1])
  }

  /** Bounds the number of steps that can still be taken. */
  function Measure(cfg: Config, s: State): nat
    requires s.cursor <= |cfg.expected|
  {
    9 * (|cfg.expected| - s.cursor) + WorkSum(s.workers, |s.workers|) + (if s.token then 3 else 0) + DispatchLeft(s.disp)
  }

  lemma {:induction false} WorkSumUpdate(ws: seq<Worker>, w: nat, k: Worker, n: nat)
    requires w < |ws| && n <= |ws|
    ensures WorkSum(ws[w := k], n) == WorkSum(ws, n) + (if w < n then WorkLeft(k) as int - WorkLeft(ws[w]) as int else 0)
  {
    if n > 0 {
      WorkSumUpdate(ws, w, k, n - 1);
    }
  }

  lemma {:induction false} WorkSumPush(ws: seq<Worker>, k: Worker, n: nat)
    requires n <= |ws|
    ensures WorkSum(ws + [k], n) == WorkSum(ws, n)
  {
    if n > 0 {
      WorkSumPush(ws, k, n - 1);
    }
  }

  lemma {:induction false} StepMakesProgress(cfg: Config, s: State, step: Step)
    requires Enabled(cfg, s, step)
    ensures var t := Next(cfg, s, step);
      t.cursor <= |cfg.expected| && Measure(cfg, t) < Measure(cfg, s)
  {
    var n := |s.workers|;
    match step
    case TryPick => WorkSumPush(s.workers, Fetching, n);
    case Accept(w, indices, len) => WorkSumUpdate(s.workers, w, Adding(indices - s.seen, len), n);
    case Reject(w) => WorkSumUpdate(s.workers, w, Releasing, n);
    case StoreRows(w) => WorkSumUpdate(s.workers, w, Releasing, n);
    case Release(w) => WorkSumUpdate(s.workers, w, Signaling, n);
    case Signal(w) => WorkSumUpdate(s.workers, w, Done, n);
    case _ =>
  }

  /** Main result: no run, under any schedule, has more than 9n + 3 steps for n selected validators. */
  lemma {:induction false} RunsAreFinite(cfg: Config, steps: seq<Step>)
    requires After(cfg, steps).Some?
    ensures var s := After(cfg, steps).value;
      s.cursor <= |cfg.expected| && |steps| + Measure(cfg, s) <= 9 * |cfg.expected| + 3
  {
    if steps != [] {
      var n := |steps| - 1;
      RunsAreFinite(cfg, steps[..n]);
      StepMakesProgress(cfg, After(cfg, steps[..n]).value, steps[n]);
    }
  }

  /** Main result: unless dispatch has stopped or was cancelled, some step other than a cancellation is
      enabled.  With the bound above, every run that is not cancelled stops once its workers finish. */
  lemma {:induction false} NeverStuck(cfg: Config, steps: seq<Step>) returns (step: Step)
    requires PositiveReservations(cfg) && After(cfg, steps).Some?
    requires After(cfg, steps).value.disp != Stopped && After(cfg, steps).value.disp != Cancelled
    ensures Enabled(cfg, After(cfg, steps).value, step) && step != Cancel
  {
    RunKeepsInv(cfg, steps);
    var s := After(cfg, steps).value;
    if s.disp == AtReady {
      step := CheckReady;
    } else if s.disp == AtPick {
      step := TryPick;
    } else if s.token {
      step := Wake;
    } else if Signaling in s.workers {
      var w: nat :| w < |s.workers| && s.workers[w] == Signaling;
      step := Signal(w);
    } else {
      NoWakeupIsLost(cfg, steps);
      var w: nat :| w < |s.workers| && Unreleased(s.workers[w]);
      step := match s.workers[w] case Fetching => Reject(w) case Adding(_, _) => StoreRows(w) case _ => Release(w);
    }
  }
}
