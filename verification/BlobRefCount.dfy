/** Reference counting of a blob's pooled storage (fibre/blob.go) across Free, Upload and the goroutines
    that Upload starts (fibre/client_upload.go).

    Each load, compare-and-swap and decrement is a step of its own, and so is the run of the release
    function.  A run is any interleaving of any number of uploads and calls of Free. */
module BlobRefCount {
  import opened Basics

  /** The caller's reference: `Dropping` after the winning swap in Free, `Firing` when its decrement reached
      zero. */
  datatype User = Keeps | Dropping | Firing | Dropped

  /** Where a call of Upload stands.  `Trying` and `Read` are the retain loop, `Retrying` and `Reread` the
      one of uploadShards, whose result is ignored. */
  datatype Caller =
    | Trying | Read(n: int) | Refused
    | Working
    | Retrying | Reread(n: int)
    | Spawned | Leaving | Last | Finished

  /** The reference shared by the shard goroutines: held while some still run, dropped by the one whose
      response is the last. */
  datatype Group = NotStarted | Running(responses: nat) | Closing | Closed | GroupLast

  datatype Upload = Upload(requests: nat, caller: Caller, group: Group)

  datatype State = State(count: int, user: User, present: bool, fired: nat, uploads: seq<Upload>)

  function Begin(): State {
    State(1, Keeps, true, 0, [])
  }

  datatype Action =
    | Load | Swap | Fail | StartShards | LoadAgain | SwapAgain
    | Respond | CloseGroup | FireGroup | Return | Drop | Fire

  datatype Step =
    | Arrive(requests: nat)
    | Free
    | DropUser
    | FireUser
    | ByUpload(upload: nat, action: Action)

  predicate UploadEnabled(u: Upload, action: Action) {
    match action
    case Load => u.caller == Trying
    case Swap => u.caller.Read?
    case Fail => u.caller == Working
    case StartShards => u.caller == Working
    case LoadAgain => u.caller == Retrying
    case SwapAgain => u.caller.Reread?
    case Respond => u.group.Running?
    case CloseGroup => u.group == Closing
    case FireGroup => u.group == GroupLast
    case Return => u.caller == Spawned && (u.requests == 0 ==> u.group == Closed)
    case Drop => u.caller == Leaving
    case Fire => u.caller == Last
  }

  predicate Enabled(s: State, step: Step) {
    match step
    case Arrive(_) => true
    case Free => true
    case DropUser => s.user == Dropping
    case FireUser => s.user == Firing
    case ByUpload(i, action) => i < |s.uploads| && UploadEnabled(s.uploads[i], action)
  }

  /** The goroutines that a call of uploadShards starts; with no requests it drops the reference itself. */
  function Spawn(u: Upload): Upload {
    u.(caller := Spawned, group := if u.requests == 0 then Closing else Running(0))
  }

  function UploadAfter(s: State, u: Upload, action: Action): Upload
    requires UploadEnabled(u, action)
  {
    match action
    case Load => u.(caller := if s.count == 0 then Refused else Read(s.count))
    case Swap => u.(caller := if s.count == u.caller.n then Working else Trying)
    case Fail => u.(caller := Leaving)
    case StartShards => u.(caller := Retrying)
    case LoadAgain => if s.count == 0 then Spawn(u) else u.(caller := Reread(s.count))
    case SwapAgain => if s.count == u.caller.n then Spawn(u) else u.(caller := Retrying)
    case Respond =>
      u.(group := if u.group.responses + 1 == u.requests then Closing else Running(u.group.responses + 1))
    case CloseGroup => u.(group := if s.count == 1 then GroupLast else Closed)
    case FireGroup => u.(group := Closed)
    case Return => u.(caller := Leaving)
    case Drop => u.(caller := if s.count == 1 then Last else Finished)
    case Fire => u.(caller := Finished)
  }

  function RunRelease(s: State): State {
    if s.present then s.(fired := s.fired + 1, present := false) else s
  }

  function Effect(s: State, u: Upload, action: Action): State
    requires UploadEnabled(u, action)
  {
    match action
    case Swap => if s.count == u.caller.n then s.(count := s.count + 1) else s
    case SwapAgain => if s.count == u.caller.n then s.(count := s.count + 1) else s
    case CloseGroup => s.(count := s.count - 1)
    case FireGroup => RunRelease(s)
    case Drop => s.(count := s.count - 1)
    case Fire => RunRelease(s)
    case _ => s
  }

  function Next(s: State, step: Step): State
    requires Enabled(s, step)
  {
    match step
    case Arrive(requests) => s.(uploads := s.uploads + [Upload(requests, Trying, NotStarted)])
    case Free => if s.user == Keeps then s.(user := Dropping) else s
    case DropUser => s.(count := s.count - 1, user := if s.count == 1 then Firing else Dropped)
    case FireUser => RunRelease(s).(user := Dropped)
    case ByUpload(i, action) =>
      Effect(s, s.uploads[i], action).(uploads := s.uploads[i := UploadAfter(s, s.uploads[i], action)])
  }

  function After(steps: seq<Step>): Option<State> {
    if steps == [] then
      Some(Begin())
    else
      var before := After(steps[..|steps| - 1]);
      if before.Some? && Enabled(before.value, steps[|steps| - 1]) then
        Some(Next(before.value, steps[|steps| - 1]))
      else
        None
  }

  // ----- owners

  predicate CallerOwns(c: Caller) {
    c == Working || c == Retrying || c.Reread? || c == Spawned || c == Leaving
  }

  predicate GroupOwns(g: Group) {
    g.Running? || g == Closing
  }

  /** References an upload holds, and release functions it is about to run. */
  function Owns(u: Upload): nat {
    (if CallerOwns(u.caller) then 1 else 0) + (if GroupOwns(u.group) then 1 else 0)
  }

  function Fires(u: Upload): nat {
    (if u.caller == Last then 1 else 0) + (if u.group == GroupLast then 1 else 0)
  }

  function Owners(uploads: seq<Upload>): nat {
    if uploads == [] then 0 else Owners(uploads[..|uploads| - 1]) + Owns(uploads[|uploads| - 1])
  }

  function Firings(uploads: seq<Upload>): nat {
    if uploads == [] then 0 else Firings(uploads[..|uploads| - 1]) + Fires(uploads[|uploads| - 1])
  }

  function UserOwns(user: User): nat {
    if user == Keeps || user == Dropping then 1 else 0
  }

  function UserFires(user: User): nat {
    if user == Firing then 1 else 0
  }

  /** A caller that read the count read a positive one; the group starts only after uploadShards does; a
      group with no requests never runs. */
  predicate Shape(u: Upload) {
    && (u.caller.Read? ==> u.caller.n > 0) && (u.caller.Reread? ==> u.caller.n > 0)
    && (u.group != NotStarted ==> u.caller == Spawned || u.caller == Leaving || u.caller == Last || u.caller == Finished)
    && (u.group.Running? ==> u.group.responses < u.requests)
  }

  predicate Inv(s: State) {
    && s.count == UserOwns(s.user) + Owners(s.uploads)
    && s.present == (s.fired == 0)
    && s.fired + UserFires(s.user) + Firings(s.uploads) == (if s.count == 0 then 1 else 0)
    && forall i :: 0 <= i < |s.uploads| ==> Shape(s.uploads[i])
  }

  lemma {:induction false} SumsUpdate(uploads: seq<Upload>, i: nat, u: Upload)
    requires i < |uploads|
    ensures Owners(uploads[i := u]) == Owners(uploads) - Owns(uploads[i]) + Owns(u)
    ensures Firings(uploads[i := u]) == Firings(uploads) - Fires(uploads[i]) + Fires(u)
  {
    var n := |uploads| - 1;
    if i < n {
      SumsUpdate(uploads[..n], i, u);
      assert uploads[i := u][..n] == uploads[..n][i := u];
    } else {
      assert uploads[i := u][..n] == uploads[..n];
    }
  }

  lemma {:induction false} SumsCover(uploads: seq<Upload>, i: nat)
    requires i < |uploads|
    ensures Owners(uploads) >= Owns(uploads[i]) && Firings(uploads) >= Fires(uploads[i])
  {
    if i < |uploads| - 1 {
      SumsCover(uploads[..|uploads| - 1], i);
    }
  }

  lemma ActionKeepsCount(s: State, u: Upload, action: Action)
    requires UploadEnabled(u, action) && Shape(u) && s.count >= Owns(u)
    ensures Shape(UploadAfter(s, u, action))
    ensures Effect(s, u, action).count == s.count + Owns(UploadAfter(s, u, action)) - Owns(u)
  {
  }

  /** An action makes one more release due exactly when it brings the count to zero. */
  lemma ActionKeepsFirings(s: State, u: Upload, action: Action)
    requires UploadEnabled(u, action) && Shape(u) && s.count >= Owns(u)
    requires s.present == (s.fired == 0) && (Fires(u) > 0 ==> s.present) && Fires(u) <= 1
    ensures var t := Effect(s, u, action);
      && t.present == (t.fired == 0)
      && t.fired + Fires(UploadAfter(s, u, action)) ==
           s.fired + Fires(u) + (if t.count == 0 && s.count != 0 then 1 else 0)
      && (s.count == 0 ==> t.count == 0)
  {
  }

  lemma {:induction false} UploadKeepsInv(s: State, i: nat, action: Action)
    requires Inv(s) && Enabled(s, ByUpload(i, action))
    ensures Inv(Next(s, ByUpload(i, action)))
  {
    var u := s.uploads[i];
    SumsUpdate(s.uploads, i, UploadAfter(s, u, action));
    SumsCover(s.uploads, i);
    ActionKeepsCount(s, u, action);
    ActionKeepsFirings(s, u, action);
  }

  lemma {:induction false} ArrivalKeepsInv(s: State, requests: nat)
    requires Inv(s)
    ensures Inv(Next(s, Arrive(requests)))
  {
    assert (s.uploads + [Upload(requests, Trying, NotStarted)])[..|s.uploads|] == s.uploads;
  }

  lemma {:induction false} StepKeepsInv(s: State, step: Step)
    requires Inv(s) && Enabled(s, step)
    ensures Inv(Next(s, step))
  {
    match step
    case Arrive(requests) => ArrivalKeepsInv(s, requests);
    case ByUpload(i, action) => UploadKeepsInv(s, i, action);
    case _ =>
  }

  lemma {:induction false} RunKeepsInv(steps: seq<Step>)
    requires After(steps).Some?
    ensures Inv(After(steps).value)
  {
    if steps != [] {
      RunKeepsInv(steps[..|steps| - 1]);
      StepKeepsInv(After(steps[..|steps| - 1]).value, steps[|steps| - 1]);
    }
  }

  /** Main result: in every interleaving the count is the number of live owners, the release function has
      run at most once, and if it ran, or is about to, nobody owns the storage. */
  lemma {:induction false} CountIsOwners(steps: seq<Step>)
    requires After(steps).Some?
    ensures var s := After(steps).value;
      && s.count == UserOwns(s.user) + Owners(s.uploads)
      && s.fired + UserFires(s.user) + Firings(s.uploads) <= 1
      && (s.fired + UserFires(s.user) + Firings(s.uploads) > 0 <==> UserOwns(s.user) + Owners(s.uploads) == 0)
  {
    RunKeepsInv(steps);
  }

  /** The caller keeps the blob, an upload works on it, or a shard goroutine runs. */
  predicate InUse(s: State) {
    s.user == Keeps ||
    exists i :: 0 <= i < |s.uploads| && (s.uploads[i].caller == Working || s.uploads[i].group.Running?)
  }

  /** Main result: while the blob is in use its storage has not been released and nobody is about to
      release it. */
  lemma {:induction false} UsersAreSafe(steps: seq<Step>)
    requires After(steps).Some? && InUse(After(steps).value)
    ensures var s := After(steps).value;
      s.fired == 0 && s.user != Firing && forall j :: 0 <= j < |s.uploads| ==> Fires(s.uploads[j]) == 0
  {
    RunKeepsInv(steps);
    var s := After(steps).value;
    if s.user != Keeps {
      var i :| 0 <= i < |s.uploads| && (s.uploads[i].caller == Working || s.uploads[i].group.Running?);
      SumsCover(s.uploads, i);
    }
    forall j | 0 <= j < |s.uploads| ensures Fires(s.uploads[j]) == 0 {
      SumsCover(s.uploads, j);
    }
  }

  /** Main result: a count of zero is final; every later attempt to retain is refused. */
  lemma {:induction false} ZeroIsFinal(steps: seq<Step>, step: Step)
    requires After(steps).Some? && Enabled(After(steps).value, step) && After(steps).value.count == 0
    ensures var t := Next(After(steps).value, step);
      && t.count == 0
      && (step.ByUpload? && step.action == Load ==> t.uploads[step.upload].caller == Refused)
      && (step.ByUpload? && step.action == Swap ==> t.uploads[step.upload].caller == Trying)
  {
    RunKeepsInv(steps);
    var s := After(steps).value;
    if step.ByUpload? {
      SumsCover(s.uploads, step.upload);
    }
  }

  /** Main result: the second retain, whose outcome the source ignores, never finds the storage released. */
  lemma {:induction false} NestedRetainSucceeds(steps: seq<Step>, i: nat)
    requires After(steps).Some? && Enabled(After(steps).value, ByUpload(i, LoadAgain))
    ensures var s := After(steps).value;
      s.count > 0 && Next(s, ByUpload(i, LoadAgain)).uploads[i].caller == Reread(s.count)
  {
    RunKeepsInv(steps);
    SumsCover(After(steps).value.uploads, i);
  }

  predicate Ended(u: Upload) {
    u.caller == Refused || (u.caller == Finished && (u.group == NotStarted || u.group == Closed))
  }

  lemma {:induction false} EndedOwnsNothing(uploads: seq<Upload>)
    requires forall i :: 0 <= i < |uploads| ==> Ended(uploads[i]) && Shape(uploads[i])
    ensures Owners(uploads) == 0 && Firings(uploads) == 0
  {
    if uploads != [] {
      EndedOwnsNothing(uploads[..|uploads| - 1]);
    }
  }

  /** Main result: nothing leaks.  When the caller has freed the blob and every upload has ended, the
      release function has run exactly once. */
  lemma {:induction false} ReleasedInTheEnd(steps: seq<Step>)
    requires After(steps).Some?
    requires var s := After(steps).value;
      s.user == Dropped && forall i :: 0 <= i < |s.uploads| ==> Ended(s.uploads[i])
    ensures After(steps).value.fired == 1
  {
    RunKeepsInv(steps);
    EndedOwnsNothing(After(steps).value.uploads);
  }
}
