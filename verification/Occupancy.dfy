/** The storage limiter of a Fibre server (fibre/occupancy.go) together with the admission section of
    UploadShard (fibre/server_upload.go) and the pruner (fibre/server_prune.go).

    Uploads run concurrently; every step is one atomic operation on a counter, one lock operation, or one
    call of the store.  A run is any interleaving. */
module Occupancy {
  import opened Basics
  import opened FileBytes

  /** A stored shard is identified by its commitment and promise hash; `stripe` selects the upload lock of
      a key. */
  type Key = nat

  datatype Config = Config(stripe: Key -> nat, budget: int, files: map<Key, nat>)

  /** Where an upload stands.  `Added` has counted its bytes and holds the counter value it saw. */
  datatype Place =
    | Arrived | Locked | Absent | Loaded(budget: int) | Added(budget: int, seen: int)
    | Granted | PutFailed | Undoing | Finishing | Finished

  datatype Upload = Upload(key: Key, size: nat, place: Place)

  datatype State = State(
    used: int,
    budget: int,
    files: map<Key, nat>,
    freed: Option<nat>,
    locks: set<nat>,
    uploads: seq<Upload>)

  datatype Action = Lock | CheckHas | LoadBudget | Add | Compare | Undo | PutOk | PutError | ReleaseFailed | Unlock

  datatype Step =
    | Arrive(key: Key, size: nat)
    | ByUpload(upload: nat, action: Action)
    | Prune(keys: set<Key>)
    | ReleaseFreed
    | SetBudget(budget: int)

  // ----- the steps

  ghost function Begin(cfg: Config): State {
    State(Bytes(cfg.files), cfg.budget, cfg.files, None, {}, [])
  }

  predicate UploadEnabled(cfg: Config, s: State, u: Upload, action: Action) {
    match action
    case Lock => u.place == Arrived && cfg.stripe(u.key) !in s.locks
    case CheckHas => u.place == Locked
    case LoadBudget => u.place == Absent
    case Add => u.place.Loaded?
    case Compare => u.place.Added?
    case Undo => u.place == Undoing
    case PutOk => u.place == Granted
    case PutError => u.place == Granted
    case ReleaseFailed => u.place == PutFailed
    case Unlock => u.place == Finishing
  }

  predicate Enabled(cfg: Config, s: State, step: Step) {
    match step
    case Arrive(_, _) => true
    case ByUpload(i, action) => i < |s.uploads| && UploadEnabled(cfg, s, s.uploads[i], action)
    case Prune(keys) => s.freed == None
    case ReleaseFreed => s.freed.Some?
    case SetBudget(_) => true
  }

  predicate Fits(place: Place)
    requires place.Added?
  {
    place.budget <= 0 || place.seen <= place.budget
  }

  function PlaceAfter(s: State, u: Upload, action: Action): Place
    requires action.Add? ==> u.place.Loaded?
    requires action.Compare? ==> u.place.Added?
  {
    match action
    case Lock => Locked
    case CheckHas => if u.key in s.files then Finishing else Absent
    case LoadBudget => Loaded(s.budget)
    case Add => Added(u.place.budget, s.used + u.size)
    case Compare => if Fits(u.place) then Granted else Undoing
    case Undo => Finishing
    case PutOk => Finishing
    case PutError => PutFailed
    case ReleaseFailed => Finishing
    case Unlock => Finished
  }

  function Effect(cfg: Config, s: State, u: Upload, action: Action): State {
    match action
    case Lock => s.(locks := s.locks + {cfg.stripe(u.key)})
    case Add => s.(used := s.used + u.size)
    case Undo => s.(used := s.used - u.size)
    case PutOk => s.(files := s.files[u.key := u.size])
    case ReleaseFailed => s.(used := s.used - u.size)
    case Unlock => s.(locks := s.locks - {cfg.stripe(u.key)})
    case _ => s
  }

  ghost function Next(cfg: Config, s: State, step: Step): State
    requires Enabled(cfg, s, step)
  {
    match step
    case Arrive(key, size) => s.(uploads := s.uploads + [Upload(key, size, Arrived)])
    case ByUpload(i, action) =>
      var u := s.uploads[i];
      Effect(cfg, s, u, action).(uploads := s.uploads[i := u.(place := PlaceAfter(s, u, action))])
    case Prune(keys) => s.(files := s.files - keys, freed := Some(Bytes(Only(s.files, keys))))
    case ReleaseFreed => s.(used := s.used - s.freed.value, freed := None)
    case SetBudget(budget) => s.(budget := budget)
  }

  ghost function After(cfg: Config, steps: seq<Step>): Option<State> {
    if steps == [] then
      Some(Begin(cfg))
    else
      var before := After(cfg, steps[..|steps| - 1]);
      if before.Some? && Enabled(cfg, before.value, steps[|steps| - 1]) then
        Some(Next(cfg, before.value, steps[|steps| - 1]))
      else
        None
  }

  // ----- conservation

  /** Bytes an upload has counted and neither stored nor given back. */
  function InFlight(u: Upload): nat {
    if u.place.Added? || u.place == Granted || u.place == PutFailed || u.place == Undoing then u.size else 0
  }

  function Reserved(uploads: seq<Upload>): nat {
    if uploads == [] then 0 else Reserved(uploads[..|uploads| - 1]) + InFlight(uploads[|uploads| - 1])
  }

  function Unreleased(s: State): nat {
    if s.freed.Some? then s.freed.value else 0
  }

  predicate InSection(place: Place) {
    place != Arrived && place != Finished
  }

  /** Uploads between the presence check and the end of their Put. */
  predicate KnownAbsent(place: Place) {
    place == Absent || place.Loaded? || place.Added? || place == Granted
  }

  predicate Excluded(cfg: Config, s: State) {
    && (forall i :: 0 <= i < |s.uploads| && InSection(s.uploads[i].place) ==> cfg.stripe(s.uploads[i].key) in s.locks)
    && (forall i, j :: 0 <= i < j < |s.uploads| && InSection(s.uploads[i].place) && InSection(s.uploads[j].place) ==>
          cfg.stripe(s.uploads[i].key) != cfg.stripe(s.uploads[j].key))
  }

  predicate AbsentAsChecked(s: State) {
    forall i :: 0 <= i < |s.uploads| && KnownAbsent(s.uploads[i].place) ==> s.uploads[i].key !in s.files
  }

  ghost predicate Conserved(s: State) {
    s.used == Bytes(s.files) + Reserved(s.uploads) + Unreleased(s)
  }

  ghost predicate Inv(cfg: Config, s: State) {
    Excluded(cfg, s) && AbsentAsChecked(s) && Conserved(s)
  }

  lemma {:induction false} ReservedUpdate(uploads: seq<Upload>, i: nat, u: Upload)
    requires i < |uploads|
    ensures Reserved(uploads[i := u]) == Reserved(uploads) - InFlight(uploads[i]) + InFlight(u)
  {
    var n := |uploads| - 1;
    if i < n {
      ReservedUpdate(uploads[..n], i, u);
      assert uploads[i := u][..n] == uploads[..n][i := u];
    } else {
      assert uploads[i := u][..n] == uploads[..n];
    }
  }

  lemma {:induction false} UploadKeepsExclusion(cfg: Config, s: State, i: nat, action: Action)
    requires Inv(cfg, s) && Enabled(cfg, s, ByUpload(i, action))
    ensures var t := Next(cfg, s, ByUpload(i, action)); Excluded(cfg, t) && AbsentAsChecked(t)
  {
    var u := s.uploads[i];
    var place := PlaceAfter(s, u, action);
    assert InSection(place) && !InSection(u.place) ==> action == Lock;
    assert KnownAbsent(place) ==> KnownAbsent(u.place) || (action == CheckHas && u.key !in s.files);
    assert action == PutOk ==> InSection(u.place);
  }

  lemma {:induction false} UploadConserves(cfg: Config, s: State, i: nat, action: Action)
    requires Inv(cfg, s) && Enabled(cfg, s, ByUpload(i, action))
    ensures Conserved(Next(cfg, s, ByUpload(i, action)))
  {
    var u := s.uploads[i];
    ReservedUpdate(s.uploads, i, u.(place := PlaceAfter(s, u, action)));
    if action == PutOk {
      BytesWith(s.files, u.key, u.size);
    }
  }

  lemma {:induction false} PruneConserves(cfg: Config, s: State, keys: set<Key>)
    requires Inv(cfg, s) && Enabled(cfg, s, Prune(keys))
    ensures Inv(cfg, Next(cfg, s, Prune(keys)))
  {
    BytesSplit(s.files, keys);
  }

  /** The uploads after one more arrived. */
  function WithArrival(uploads: seq<Upload>, key: Key, size: nat): seq<Upload> {
    uploads + [Upload(key, size, Arrived)]
  }

  lemma ArrivalIsLast(uploads: seq<Upload>, key: Key, size: nat, i: nat)
    requires i <= |uploads|
    ensures WithArrival(uploads, key, size)[i] == if i < |uploads| then uploads[i] else Upload(key, size, Arrived)
  {
  }

  lemma {:induction false} ArrivalKeepsExclusion(cfg: Config, s: State, key: Key, size: nat)
    requires Excluded(cfg, s)
    ensures Excluded(cfg, s.(uploads := WithArrival(s.uploads, key, size)))
  {
    forall i | 0 <= i <= |s.uploads|
      ensures WithArrival(s.uploads, key, size)[i] == if i < |s.uploads| then s.uploads[i] else Upload(key, size, Arrived)
    {
      ArrivalIsLast(s.uploads, key, size, i);
    }
  }

  lemma {:induction false} ArrivalKeepsAbsent(s: State, key: Key, size: nat)
    requires AbsentAsChecked(s)
    ensures AbsentAsChecked(s.(uploads := WithArrival(s.uploads, key, size)))
  {
  }

  lemma {:induction false} ArrivalReservesNothing(uploads: seq<Upload>, key: Key, size: nat)
    ensures Reserved(WithArrival(uploads, key, size)) == Reserved(uploads)
  {
    assert WithArrival(uploads, key, size)[..|uploads|] == uploads;
  }

  lemma {:induction false} ArrivalConserves(cfg: Config, s: State, key: Key, size: nat)
    requires Inv(cfg, s)
    ensures Inv(cfg, Next(cfg, s, Arrive(key, size)))
  {
    ArrivalKeepsExclusion(cfg, s, key, size);
    ArrivalKeepsAbsent(s, key, size);
    ArrivalReservesNothing(s.uploads, key, size);
  }

  lemma {:induction false} StepKeepsInv(cfg: Config, s: State, step: Step)
    requires Inv(cfg, s) && Enabled(cfg, s, step)
    ensures Inv(cfg, Next(cfg, s, step))
  {
    match step
    case Arrive(key, size) => ArrivalConserves(cfg, s, key, size);
    case ByUpload(i, action) =>
      UploadKeepsExclusion(cfg, s, i, action);
      UploadConserves(cfg, s, i, action);
    case Prune(keys) => PruneConserves(cfg, s, keys);
    case ReleaseFreed =>
    case SetBudget(_) =>
  }

  lemma {:induction false} RunKeepsInv(cfg: Config, steps: seq<Step>)
    requires After(cfg, steps).Some?
    ensures Inv(cfg, After(cfg, steps).value)
  {
    if steps != [] {
      var n := |steps| - 1;
      RunKeepsInv(cfg, steps[..n]);
      StepKeepsInv(cfg, After(cfg, steps[..n]).value, steps[n]);
    }
  }

  /** Main result: in every interleaving tracked usage is exactly the bytes of the shard files, plus the
      reservations under way, plus bytes pruned whose release is pending. */
  lemma {:induction false} UsageIsExact(cfg: Config, steps: seq<Step>)
    requires After(cfg, steps).Some?
    ensures var s := After(cfg, steps).value; s.used == Bytes(s.files) + Reserved(s.uploads) + Unreleased(s)
  {
    RunKeepsInv(cfg, steps);
  }

  /** Main result: of concurrent uploads of one shard, at most one has bytes reserved, and none while the
      shard is on disk unless its Put just failed or its reservation is being undone. */
  lemma {:induction false} DuplicatesReserveOnce(cfg: Config, steps: seq<Step>, i: nat, j: nat)
    requires After(cfg, steps).Some?
    requires var s := After(cfg, steps).value; i < j < |s.uploads| && s.uploads[i].key == s.uploads[j].key
    ensures var s := After(cfg, steps).value; InFlight(s.uploads[i]) == 0 || InFlight(s.uploads[j]) == 0
    ensures var s := After(cfg, steps).value;
      InFlight(s.uploads[i]) > 0 && s.uploads[i].key in s.files ==>
        s.uploads[i].place == PutFailed || s.uploads[i].place == Undoing
  {
    RunKeepsInv(cfg, steps);
    var s := After(cfg, steps).value;
    assert forall u: Upload :: InFlight(u) > 0 ==> InSection(u.place);
  }

  lemma {:induction false} NothingReserved(uploads: seq<Upload>)
    requires forall i :: 0 <= i < |uploads| ==> uploads[i].place == Finished
    ensures Reserved(uploads) == 0
  {
    if uploads != [] {
      NothingReserved(uploads[..|uploads| - 1]);
    }
  }

  /** When all is quiet, usage is the bytes on disk: nothing leaks. */
  lemma {:induction false} QuietUsage(cfg: Config, steps: seq<Step>)
    requires After(cfg, steps).Some?
    requires var s := After(cfg, steps).value;
      s.freed == None && forall i :: 0 <= i < |s.uploads| ==> s.uploads[i].place == Finished
    ensures var s := After(cfg, steps).value; s.used == Bytes(s.files)
  {
    RunKeepsInv(cfg, steps);
    NothingReserved(After(cfg, steps).value.uploads);
  }

  // ----- the budget

  /** Bytes an upload holds for good: granted, or certain to be. */
  function Claimed(u: Upload): nat {
    if u.place == Granted || u.place == PutFailed || (u.place.Added? && Fits(u.place)) then u.size else 0
  }

  function Claims(uploads: seq<Upload>): nat {
    if uploads == [] then 0 else Claims(uploads[..|uploads| - 1]) + Claimed(uploads[|uploads| - 1])
  }

  ghost function Held(s: State): nat {
    Bytes(s.files) + Claims(s.uploads)
  }

  lemma {:induction false} ClaimsUpdate(uploads: seq<Upload>, i: nat, u: Upload)
    requires i < |uploads|
    ensures Claims(uploads[i := u]) == Claims(uploads) - Claimed(uploads[i]) + Claimed(u)
  {
    var n := |uploads| - 1;
    if i < n {
      ClaimsUpdate(uploads[..n], i, u);
      assert uploads[i := u][..n] == uploads[..n][i := u];
    } else {
      assert uploads[i := u][..n] == uploads[..n];
    }
  }

  lemma {:induction false} ClaimsAreReserved(uploads: seq<Upload>)
    ensures Claims(uploads) <= Reserved(uploads)
  {
    if uploads != [] {
      ClaimsAreReserved(uploads[..|uploads| - 1]);
    }
  }

  predicate IsAddition(step: Step) {
    step.ByUpload? && step.action == Add
  }

  lemma {:induction false} UploadRaisesHeld(cfg: Config, s: State, i: nat, action: Action)
    requires Inv(cfg, s) && Enabled(cfg, s, ByUpload(i, action)) && action != Add
    ensures Held(Next(cfg, s, ByUpload(i, action))) <= Held(s)
  {
    var u := s.uploads[i];
    ClaimsUpdate(s.uploads, i, u.(place := PlaceAfter(s, u, action)));
    if action == PutOk {
      BytesWith(s.files, u.key, u.size);
    }
  }

  lemma {:induction false} AdditionRaisesHeld(cfg: Config, s: State, i: nat)
    requires Inv(cfg, s) && Enabled(cfg, s, ByUpload(i, Add)) && s.uploads[i].place.budget > 0
    ensures var t := Next(cfg, s, ByUpload(i, Add));
      Held(t) <= s.uploads[i].place.budget || Held(t) == Held(s)
  {
    var u := s.uploads[i];
    var t := Next(cfg, s, ByUpload(i, Add));
    UploadConserves(cfg, s, i, Add);
    ClaimsAreReserved(t.uploads);
    ClaimsUpdate(s.uploads, i, u.(place := PlaceAfter(s, u, Add)));
  }

  /** Main result: whatever the other uploads do, an addition that a positive budget lets pass leaves the
      held bytes within that budget, and no other step raises them. */
  lemma {:induction false} OnlyFittingAdditionsRaise(cfg: Config, s: State, step: Step)
    requires Inv(cfg, s) && Enabled(cfg, s, step)
    ensures var t := Next(cfg, s, step);
      && (!IsAddition(step) ==> Held(t) <= Held(s))
      && (IsAddition(step) && s.uploads[step.upload].place.budget > 0 ==>
            Held(t) <= s.uploads[step.upload].place.budget || Held(t) == Held(s))
  {
    match step
    case Arrive(key, size) => assert (s.uploads + [Upload(key, size, Arrived)])[..|s.uploads|] == s.uploads;
    case ByUpload(i, action) =>
      if action != Add {
        UploadRaisesHeld(cfg, s, i, action);
      } else if s.uploads[i].place.budget > 0 {
        AdditionRaisesHeld(cfg, s, i);
      }
    case Prune(keys) => BytesSplit(s.files, keys);
    case _ =>
  }

  function Max(a: int, b: int): int {
    if a < b then b else a
  }

  predicate BudgetFixed(steps: seq<Step>) {
    forall i :: 0 <= i < |steps| ==> !steps[i].SetBudget?
  }

  predicate BudgetLoaded(cfg: Config, s: State) {
    && s.budget == cfg.budget
    && forall i :: 0 <= i < |s.uploads| ==>
         && (s.uploads[i].place.Loaded? ==> s.uploads[i].place.budget == cfg.budget)
         && (s.uploads[i].place.Added? ==> s.uploads[i].place.budget == cfg.budget)
  }

  lemma {:induction false} StepKeepsBudget(cfg: Config, s: State, step: Step)
    requires BudgetLoaded(cfg, s) && Enabled(cfg, s, step) && !step.SetBudget?
    ensures BudgetLoaded(cfg, Next(cfg, s, step))
  {
  }

  /** Main result: under a fixed positive budget the held bytes never exceed it, unless the store was
      over it when the server started, and then they never exceed what was stored. */
  lemma {:induction false} HeldStaysWithinBudget(cfg: Config, steps: seq<Step>)
    requires After(cfg, steps).Some? && BudgetFixed(steps) && cfg.budget > 0
    ensures var s := After(cfg, steps).value;
      BudgetLoaded(cfg, s) && Held(s) <= Max(cfg.budget, Bytes(cfg.files))
  {
    if steps != [] {
      var n := |steps| - 1;
      HeldStaysWithinBudget(cfg, steps[..n]);
      RunKeepsInv(cfg, steps[..n]);
      StepKeepsBudget(cfg, After(cfg, steps[..n]).value, steps[n]);
      OnlyFittingAdditionsRaise(cfg, After(cfg, steps[..n]).value, steps[n]);
    }
  }
}
