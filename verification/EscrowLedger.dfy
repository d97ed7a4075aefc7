/** The client-side escrow budget of one signer (fibre/escrow_ledger.go, fibre/client_put.go,
    fibre/client_upload.go), with auto-funding on.

    Puts and refills run concurrently.  Every step is one atomic action of the source: a flag access, a
    clock reading, a critical section under the balance mutex, a query or deposit taking effect on chain,
    or an event on chain.  A run is any interleaving. */
module EscrowLedger {
  import opened Basics

  /** `grace` says whether StartupGracePeriod is positive; `chain` is the escrow on chain when the ledger
      starts, of which `legacy` backs promises signed before a restart and not yet settled. */
  datatype Config = Config(high: int, grace: bool, chain: nat, legacy: nat)

  /** Where a Put stands.  `LoadSeeded` to `Written` are ensureSeeded, the last three of them under the
      seeding lock; `Waiting` is the entry of waitForBudget and `Polling` its loop. */
  datatype Place =
    | LoadSeeded | CheckGrace | LockSeed | Seeding | Queried(answer: nat) | Written
    | Admitting | Waiting | Polling | Held | Dispatched | Settled | Failed

  datatype Put = Put(amount: nat, place: Place)

  /** Where a refill stands, from its clock reading to the clearing of the single-flight flag. */
  datatype Refill =
    | ReadClock | TryFlag | Computing | Depositing(deposit: nat, landed: bool) | Crediting(deposit: nat)
    | Clearing | Finished

  datatype State = State(
    chain: int,
    legacy: nat,
    grace: bool,
    balance: int,
    seeded: bool,
    seedLock: bool,
    refilling: bool,
    puts: seq<Put>,
    refills: seq<Refill>)

  function Begin(cfg: Config): State {
    State(cfg.chain, cfg.legacy, cfg.grace, 0, false, false, false, [], [])
  }

  datatype PutAction =
    | Load | ReadGrace | Lock | Query | QueryFails | Write | Publish
    | Admit | EnterWait | GiveUp | Dispatch | Abort | Settle

  datatype RefillAction = CheckClock | TakeFlag | Compute | Land | Report(ok: bool) | Credit | Clear

  datatype Step =
    | Arrive(amount: nat)
    | ByPut(put: nat, action: PutAction)
    | StartRefill(put: nat)
    | ByRefill(refill: nat, deed: RefillAction)
    | SettleLegacy(amount: nat)
    | OutsideDeposit(amount: nat)
    | GraceEnds

  predicate PutEnabled(s: State, put: Put, action: PutAction) {
    match action
    case Load => put.place == LoadSeeded
    case ReadGrace => put.place == CheckGrace
    case Lock => put.place == LockSeed && !s.seedLock
    case Query => put.place == Seeding && s.chain >= 0
    case QueryFails => put.place == Seeding
    case Write => put.place.Queried?
    case Publish => put.place == Written
    case Admit => put.place == Admitting || put.place == Polling
    case EnterWait => put.place == Waiting
    case GiveUp => put.place == Polling
    case Dispatch => put.place == Held
    case Abort => put.place == Held
    case Settle => put.place == Dispatched && s.chain >= put.amount
  }

  predicate RefillEnabled(r: Refill, deed: RefillAction) {
    match deed
    case CheckClock => r == ReadClock
    case TakeFlag => r == TryFlag
    case Compute => r == Computing
    case Land => r.Depositing? && !r.landed
    case Report(ok) => r.Depositing? && (ok ==> r.landed)
    case Credit => r.Crediting?
    case Clear => r == Clearing
  }

  /** A Put past its first admission attempt may trigger a refill.  On chain, old promises settle while
      funds last, anybody may add funds, and the grace period ends only when every old promise has
      settled or timed out.  A deposit reports success only if it landed, and a promise settles only if
      the escrow covers it. */
  predicate Enabled(s: State, step: Step) {
    match step
    case Arrive(_) => true
    case ByPut(p, action) => p < |s.puts| && PutEnabled(s, s.puts[p], action)
    case StartRefill(p) => p < |s.puts| && (s.puts[p].place == Polling || Owes(s.puts[p].place))
    case ByRefill(r, deed) => r < |s.refills| && RefillEnabled(s.refills[r], deed)
    case SettleLegacy(amount) => amount <= s.legacy && s.chain >= amount
    case OutsideDeposit(_) => true
    case GraceEnds => s.grace && s.legacy == 0
  }

  /** Where an action takes a Put. */
  function PlaceAfter(cfg: Config, s: State, put: Put, action: PutAction): Place
    requires PutEnabled(s, put, action)
  {
    match action
    case Load => if s.seeded then Admitting else CheckGrace
    case ReadGrace => if s.grace then Admitting else LockSeed
    case Lock => Seeding
    case Query => if s.seeded then Admitting else Queried(s.chain)
    case QueryFails => if s.seeded then Admitting else Failed
    case Write => Written
    case Publish => Admitting
    case Admit => if s.balance >= put.amount then Held else if put.place == Admitting then Waiting else Polling
    case EnterWait => if cfg.high < put.amount || s.grace then Failed else Polling
    case GiveUp => Failed
    case Dispatch => Dispatched
    case Abort => Failed
    case Settle => Settled
  }

  /** The rest of the state after a Put's action. */
  function PutEffect(s: State, put: Put, action: PutAction): State
    requires PutEnabled(s, put, action)
  {
    match action
    case Lock => s.(seedLock := true)
    case Query => s.(seedLock := !s.seeded)
    case QueryFails => s.(seedLock := false)
    case Write => s.(balance := put.place.answer)
    case Publish => s.(seeded := true, seedLock := false)
    case Admit => if s.balance >= put.amount then s.(balance := s.balance - put.amount) else s
    case Abort => s.(balance := s.balance + put.amount)
    case Settle => s.(chain := s.chain - put.amount)
    case _ => s
  }

  function RefillAfter(cfg: Config, s: State, r: Refill, deed: RefillAction): Refill
    requires RefillEnabled(r, deed)
  {
    match deed
    case CheckClock => if s.grace then Finished else TryFlag
    case TakeFlag => if s.refilling then Finished else Computing
    case Compute => if cfg.high > s.balance then Depositing(cfg.high - s.balance, false) else Clearing
    case Land => r.(landed := true)
    case Report(ok) => if ok then Crediting(r.deposit) else Clearing
    case Credit => Clearing
    case Clear => Finished
  }

  function RefillEffect(s: State, r: Refill, deed: RefillAction): State
    requires RefillEnabled(r, deed)
  {
    match deed
    case TakeFlag => s.(refilling := true)
    case Land => s.(chain := s.chain + r.deposit)
    case Credit => s.(balance := s.balance + r.deposit)
    case Clear => s.(refilling := false)
    case _ => s
  }

  function Next(cfg: Config, s: State, step: Step): State
    requires Enabled(s, step)
  {
    match step
    case Arrive(amount) => s.(puts := s.puts + [Put(amount, LoadSeeded)])
    case ByPut(p, action) =>
      PutEffect(s, s.puts[p], action).(puts := s.puts[p := s.puts[p].(place := PlaceAfter(cfg, s, s.puts[p], action))])
    case StartRefill(p) => s.(refills := s.refills + [ReadClock])
    case ByRefill(r, deed) =>
      RefillEffect(s, s.refills[r], deed).(refills := s.refills[r := RefillAfter(cfg, s, s.refills[r], deed)])
    case SettleLegacy(amount) => s.(legacy := s.legacy - amount, chain := s.chain - amount)
    case OutsideDeposit(amount) => s.(chain := s.chain + amount)
    case GraceEnds => s.(grace := false)
  }

  function After(cfg: Config, steps: seq<Step>): Option<State> {
    if steps == [] then
      Some(Begin(cfg))
    else
      var before := After(cfg, steps[..|steps| - 1]);
      if before.Some? && Enabled(before.value, steps[|steps| - 1]) then
        Some(Next(cfg, before.value, steps[|steps| - 1]))
      else
        None
  }

  lemma {:induction false} Extend(cfg: Config, steps: seq<Step>, s: State, step: Step) returns (longer: seq<Step>)
    requires After(cfg, steps) == Some(s) && Enabled(s, step)
    ensures longer == steps + [step] && After(cfg, longer) == Some(Next(cfg, s, step))
  {
    longer := steps + [step];
    assert longer[..|longer| - 1] == steps;
  }

  // ----- what is owed

  predicate Owes(place: Place) {
    place == Held || place == Dispatched
  }

  function Holds(put: Put): nat {
    if Owes(put.place) then put.amount else 0
  }

  /** Amounts held by admitted Puts and by dispatched promises not yet settled. */
  function Owed(puts: seq<Put>): nat {
    if puts == [] then 0 else
      Owed(puts[..|puts| - 1]) + Holds(puts[|puts| - 1])
  }

  predicate InFlight(r: Refill) {
    (r.Depositing? && r.landed) || r.Crediting?
  }

  /** Deposits that are on chain and not yet in the local balance. */
  function Uncredited(refills: seq<Refill>): nat {
    if refills == [] then 0 else
      Uncredited(refills[..|refills| - 1]) + if InFlight(refills[|refills| - 1]) then refills[|refills| - 1].deposit else 0
  }

  /** How far the escrow on chain exceeds everything that may be drawn from it. */
  function Slack(s: State): int {
    s.chain - s.balance - Owed(s.puts) - Uncredited(s.refills) - s.legacy
  }

  predicate Solvent(s: State) {
    s.balance >= 0 && Slack(s) >= 0
  }

  lemma {:induction false} OwedUpdate(puts: seq<Put>, p: nat, put: Put)
    requires p < |puts|
    ensures Owed(puts[p := put]) == Owed(puts) - Holds(puts[p]) + Holds(put)
  {
    var n := |puts| - 1;
    if p < n {
      OwedUpdate(puts[..n], p, put);
      assert puts[p := put][..n] == puts[..n][p := put];
    } else {
      assert puts[p := put][..n] == puts[..n];
    }
  }

  lemma {:induction false} UncreditedUpdate(refills: seq<Refill>, r: nat, refill: Refill)
    requires r < |refills|
    ensures Uncredited(refills[r := refill]) == Uncredited(refills)
      - (if InFlight(refills[r]) then refills[r].deposit else 0) + (if InFlight(refill) then refill.deposit else 0)
  {
    var n := |refills| - 1;
    if r < n {
      UncreditedUpdate(refills[..n], r, refill);
      assert refills[r := refill][..n] == refills[..n][r := refill];
    } else {
      assert refills[r := refill][..n] == refills[..n];
    }
  }

  /** Slack that a step adds: an outside deposit, or a deposit that landed and then reported failure. */
  function Unaccounted(s: State, step: Step): nat
    requires Enabled(s, step)
  {
    match step
    case OutsideDeposit(amount) => amount
    case ByRefill(r, Report(ok)) => if !ok && s.refills[r].landed then s.refills[r].deposit else 0
    case _ => 0
  }

  /** What an action takes from chain or balance it moves into or out of the Put's hold. */
  lemma PutMovesHold(cfg: Config, s: State, put: Put, action: PutAction)
    requires PutEnabled(s, put, action) && !action.Write?
    ensures var t := PutEffect(s, put, action);
      && t.chain - t.balance == s.chain - s.balance + Holds(put.(place := PlaceAfter(cfg, s, put, action))) - Holds(put)
      && t.legacy == s.legacy && t.refills == s.refills
  {
  }

  lemma {:induction false} PutKeepsSlack(cfg: Config, s: State, p: nat, action: PutAction)
    requires Enabled(s, ByPut(p, action)) && !action.Write?
    ensures Slack(Next(cfg, s, ByPut(p, action))) == Slack(s)
  {
    OwedUpdate(s.puts, p, s.puts[p].(place := PlaceAfter(cfg, s, s.puts[p], action)));
    PutMovesHold(cfg, s, s.puts[p], action);
  }

  lemma {:induction false} RefillKeepsSlack(cfg: Config, s: State, r: nat, deed: RefillAction)
    requires Enabled(s, ByRefill(r, deed))
    ensures Slack(Next(cfg, s, ByRefill(r, deed))) == Slack(s) + Unaccounted(s, ByRefill(r, deed))
  {
    UncreditedUpdate(s.refills, r, RefillAfter(cfg, s, s.refills[r], deed));
  }

  /** Main result, conservation: apart from the one seeding write, every step of every interleaving keeps
      the difference between the escrow on chain and what is accounted for, up to deposits the ledger
      is not told about. */
  lemma {:induction false} SlackIsConserved(cfg: Config, s: State, step: Step)
    requires Enabled(s, step) && !(step.ByPut? && step.action.Write?)
    ensures Slack(Next(cfg, s, step)) == Slack(s) + Unaccounted(s, step)
  {
    match step
    case ByPut(p, action) => PutKeepsSlack(cfg, s, p, action);
    case ByRefill(r, deed) => RefillKeepsSlack(cfg, s, r, deed);
    case Arrive(amount) =>
      assert (s.puts + [Put(amount, LoadSeeded)])[..|s.puts|] == s.puts;
    case StartRefill(_) =>
      assert (s.refills + [ReadClock])[..|s.refills|] == s.refills;
    case _ =>
  }

  // ----- safety when seeding comes first

  /** A Put admits, and a refill computes its deposit, only after seeding. */
  predicate SeedFirst(s: State, step: Step) {
    match step
    case ByPut(p, Admit) => s.seeded || (p < |s.puts| && s.balance < s.puts[p].amount)
    case ByRefill(_, Compute) => s.seeded
    case _ => true
  }

  predicate HoldsSeedLock(place: Place) {
    place == Seeding || place.Queried? || place == Written
  }

  predicate Active(r: Refill) {
    !(r == ReadClock || r == TryFlag || r == Finished)
  }

  /** The seeding lock excludes: at most one Put is past it. */
  predicate SeedLocked(s: State) {
    && (forall p :: 0 <= p < |s.puts| && HoldsSeedLock(s.puts[p].place) ==> s.seedLock)
    && (forall p, q :: 0 <= p < q < |s.puts| ==> !(HoldsSeedLock(s.puts[p].place) && HoldsSeedLock(s.puts[q].place)))
  }

  /** Deposits are single-flighted. */
  predicate SingleFlight(s: State) {
    && (forall r :: 0 <= r < |s.refills| && Active(s.refills[r]) ==> s.refilling)
    && (forall r, q :: 0 <= r < q < |s.refills| ==> !(Active(s.refills[r]) && Active(s.refills[q])))
  }

  predicate SomeoneWrote(s: State) {
    exists p :: 0 <= p < |s.puts| && s.puts[p].place == Written
  }

  /** Before seeding nothing has been committed; a query answer is covered by the chain. */
  predicate Unseeded(s: State) {
    && (forall p :: 0 <= p < |s.puts| ==> !Owes(s.puts[p].place))
    && (forall r :: 0 <= r < |s.refills| ==> !InFlight(s.refills[r]) && !s.refills[r].Depositing?)
    && (forall p :: 0 <= p < |s.puts| && s.puts[p].place.Queried? ==>
          !s.grace && s.legacy == 0 && s.puts[p].place.answer <= s.chain)
    && (s.balance == 0 || SomeoneWrote(s))
  }

  predicate AfterGrace(s: State) {
    && (s.grace || s.legacy == 0)
    && (forall p :: 0 <= p < |s.puts| && (s.puts[p].place == LockSeed || HoldsSeedLock(s.puts[p].place)) ==> !s.grace)
  }

  /** Nobody is about to write or publish a query answer. */
  predicate NoSeeder(s: State) {
    forall p :: 0 <= p < |s.puts| ==> !s.puts[p].place.Queried? && s.puts[p].place != Written
  }

  predicate Inv(s: State) {
    && Solvent(s) && SeedLocked(s) && SingleFlight(s) && AfterGrace(s)
    && if s.seeded then NoSeeder(s) else Unseeded(s)
  }

  lemma {:induction false} NothingOwed(puts: seq<Put>)
    requires forall p :: 0 <= p < |puts| ==> !Owes(puts[p].place)
    ensures Owed(puts) == 0
  {
    if puts != [] {
      NothingOwed(puts[..|puts| - 1]);
    }
  }

  lemma {:induction false} NothingUncredited(refills: seq<Refill>)
    requires forall r :: 0 <= r < |refills| ==> !InFlight(refills[r])
    ensures Uncredited(refills) == 0
  {
    if refills != [] {
      NothingUncredited(refills[..|refills| - 1]);
    }
  }

  lemma {:induction false} StepKeepsSolvency(cfg: Config, s: State, step: Step)
    requires Inv(s) && Enabled(s, step) && SeedFirst(s, step)
    ensures Solvent(Next(cfg, s, step))
  {
    if step.ByPut? && step.action.Write? {
      var t := Next(cfg, s, step);
      NothingOwed(t.puts);
      NothingUncredited(t.refills);
    } else {
      SlackIsConserved(cfg, s, step);
    }
  }

  lemma {:induction false} PutKeepsLocks(cfg: Config, s: State, p: nat, action: PutAction)
    requires Inv(s) && Enabled(s, ByPut(p, action))
    ensures var t := Next(cfg, s, ByPut(p, action)); SeedLocked(t) && SingleFlight(t) && AfterGrace(t)
  {
    var t := Next(cfg, s, ByPut(p, action));
    var place := PlaceAfter(cfg, s, s.puts[p], action);
    assert HoldsSeedLock(place) ==> HoldsSeedLock(s.puts[p].place) || !s.seedLock;
    assert place == LockSeed || HoldsSeedLock(place) ==> !s.grace;
    assert t.seedLock == if HoldsSeedLock(place) then true else if HoldsSeedLock(s.puts[p].place) then false else s.seedLock;
  }

  lemma {:induction false} RefillKeepsLocks(cfg: Config, s: State, r: nat, deed: RefillAction)
    requires Inv(s) && Enabled(s, ByRefill(r, deed))
    ensures var t := Next(cfg, s, ByRefill(r, deed)); SeedLocked(t) && SingleFlight(t) && AfterGrace(t)
  {
    var t := Next(cfg, s, ByRefill(r, deed));
    var after := RefillAfter(cfg, s, s.refills[r], deed);
    assert Active(after) ==> Active(s.refills[r]) || !s.refilling;
    assert t.refilling == if Active(after) then true else if Active(s.refills[r]) then false else s.refilling;
  }

  lemma {:induction false} ArrivalKeepsLocks(cfg: Config, s: State, amount: nat)
    requires Inv(s)
    ensures var t := Next(cfg, s, Arrive(amount)); SeedLocked(t) && SingleFlight(t) && AfterGrace(t)
  {
    var t := Next(cfg, s, Arrive(amount));
    assert forall p :: 0 <= p < |s.puts| ==> t.puts[p] == s.puts[p];
  }

  lemma {:induction false} StepKeepsLocks(cfg: Config, s: State, step: Step)
    requires Inv(s) && Enabled(s, step)
    ensures var t := Next(cfg, s, step); SeedLocked(t) && SingleFlight(t) && AfterGrace(t)
  {
    match step
    case ByPut(p, action) => PutKeepsLocks(cfg, s, p, action);
    case ByRefill(r, deed) => RefillKeepsLocks(cfg, s, r, deed);
    case Arrive(amount) => ArrivalKeepsLocks(cfg, s, amount);
    case _ =>
  }

  /** The balance stays zero until the seeding write. */
  lemma {:induction false} StepKeepsZero(cfg: Config, s: State, step: Step)
    requires Inv(s) && Enabled(s, step) && SeedFirst(s, step) && !Next(cfg, s, step).seeded
    ensures var t := Next(cfg, s, step); t.balance == 0 || SomeoneWrote(t)
  {
    var t := Next(cfg, s, step);
    if SomeoneWrote(s) {
      var p :| 0 <= p < |s.puts| && s.puts[p].place == Written;
      assert t.puts[p].place == Written;
    } else if step.ByPut? && step.action.Write? {
      assert t.puts[step.put].place == Written;
    }
  }

  predicate SeedingOk(s: State) {
    if s.seeded then NoSeeder(s) else Unseeded(s)
  }

  lemma {:induction false} PutKeepsSeeding(cfg: Config, s: State, p: nat, action: PutAction)
    requires Inv(s) && Enabled(s, ByPut(p, action)) && SeedFirst(s, ByPut(p, action))
    ensures SeedingOk(Next(cfg, s, ByPut(p, action)))
  {
    var t, place := Next(cfg, s, ByPut(p, action)), PlaceAfter(cfg, s, s.puts[p], action);
    if !t.seeded {
      StepKeepsZero(cfg, s, ByPut(p, action));
      assert !Owes(place);
      assert place.Queried? ==> !s.grace && place.answer == s.chain;
      assert t.chain == s.chain;
    } else {
      assert place != Written && !place.Queried?;
    }
  }

  lemma {:induction false} RefillKeepsSeeding(cfg: Config, s: State, r: nat, deed: RefillAction)
    requires Inv(s) && Enabled(s, ByRefill(r, deed)) && SeedFirst(s, ByRefill(r, deed))
    ensures SeedingOk(Next(cfg, s, ByRefill(r, deed)))
  {
    if !s.seeded {
      StepKeepsZero(cfg, s, ByRefill(r, deed));
      assert !InFlight(RefillAfter(cfg, s, s.refills[r], deed)) && !RefillAfter(cfg, s, s.refills[r], deed).Depositing?;
    }
  }

  lemma {:induction false} ArrivalKeepsSeeding(cfg: Config, s: State, amount: nat)
    requires Inv(s)
    ensures SeedingOk(Next(cfg, s, Arrive(amount)))
  {
    var t := Next(cfg, s, Arrive(amount));
    assert forall p :: 0 <= p < |s.puts| ==> t.puts[p] == s.puts[p];
    if !s.seeded {
      StepKeepsZero(cfg, s, Arrive(amount));
    }
  }

  lemma {:induction false} StartKeepsSeeding(cfg: Config, s: State, p: nat)
    requires Inv(s) && Enabled(s, StartRefill(p))
    ensures SeedingOk(Next(cfg, s, StartRefill(p)))
  {
    var t := Next(cfg, s, StartRefill(p));
    assert forall r :: 0 <= r < |s.refills| ==> t.refills[r] == s.refills[r];
  }

  /** Steps that leave Puts and refills alone. */
  lemma {:induction false} OutsideKeepsSeeding(cfg: Config, s: State, step: Step)
    requires Inv(s) && Enabled(s, step) && (step.SettleLegacy? || step.OutsideDeposit? || step.GraceEnds?)
    ensures SeedingOk(Next(cfg, s, step))
  {
    var t := Next(cfg, s, step);
    assert t.puts == s.puts && t.refills == s.refills && t.balance == s.balance && t.seeded == s.seeded;
  }

  lemma {:induction false} StepKeepsSeeding(cfg: Config, s: State, step: Step)
    requires Inv(s) && Enabled(s, step) && SeedFirst(s, step)
    ensures SeedingOk(Next(cfg, s, step))
  {
    match step
    case ByPut(p, action) => PutKeepsSeeding(cfg, s, p, action);
    case ByRefill(r, deed) => RefillKeepsSeeding(cfg, s, r, deed);
    case Arrive(amount) => ArrivalKeepsSeeding(cfg, s, amount);
    case StartRefill(p) => StartKeepsSeeding(cfg, s, p);
    case _ => OutsideKeepsSeeding(cfg, s, step);
  }

  lemma {:induction false} StepKeepsInv(cfg: Config, s: State, step: Step)
    requires Inv(s) && Enabled(s, step) && SeedFirst(s, step)
    ensures Inv(Next(cfg, s, step))
  {
    StepKeepsSolvency(cfg, s, step);
    StepKeepsLocks(cfg, s, step);
    StepKeepsSeeding(cfg, s, step);
  }

  // ----- whole runs

  /** Seeding precedes every admission and every computed deposit of the run. */
  predicate SeedsFirst(cfg: Config, steps: seq<Step>) {
    steps == [] ||
      var before := After(cfg, steps[..|steps| - 1]);
      SeedsFirst(cfg, steps[..|steps| - 1]) && before.Some? && SeedFirst(before.value, steps[|steps| - 1])
  }

  /** The escrow covers what is outstanding when the ledger starts, and without a grace period nothing is
      outstanding. */
  predicate ValidStart(cfg: Config) {
    cfg.legacy <= cfg.chain && (cfg.grace || cfg.legacy == 0)
  }

  lemma {:induction false} RunKeepsInv(cfg: Config, steps: seq<Step>)
    requires ValidStart(cfg) && After(cfg, steps).Some? && SeedsFirst(cfg, steps)
    ensures Inv(After(cfg, steps).value)
  {
    if steps != [] {
      var n := |steps| - 1;
      RunKeepsInv(cfg, steps[..n]);
      StepKeepsInv(cfg, After(cfg, steps[..n]).value, steps[n]);
    }
  }

  /** Main result: when seeding comes first, every interleaving is solvent, and at most one deposit is
      under way. */
  lemma {:induction false} SeededRunsAreSolvent(cfg: Config, steps: seq<Step>)
    requires ValidStart(cfg) && After(cfg, steps).Some? && SeedsFirst(cfg, steps)
    ensures var s := After(cfg, steps).value;
      && Solvent(s)
      && forall r, q :: 0 <= r < q < |s.refills| ==> !(s.refills[r].Depositing? && s.refills[q].Depositing?)
  {
    RunKeepsInv(cfg, steps);
    var s := After(cfg, steps).value;
    assert forall r :: 0 <= r < |s.refills| && s.refills[r].Depositing? ==> Active(s.refills[r]);
  }

  // ----- every dispatched promise can settle

  lemma {:induction false} OwedCovers(puts: seq<Put>, p: nat)
    requires p < |puts| && Owes(puts[p].place)
    ensures Owed(puts) >= puts[p].amount
  {
    var n := |puts| - 1;
    if p < n {
      OwedCovers(puts[..n], p);
    }
  }

  /** Settles the dispatched promises among the first `n` Puts one after the other; None if the escrow
      does not cover one of them. */
  function SettleFirst(cfg: Config, s: State, n: nat): Option<State>
    requires n <= |s.puts|
  {
    if n == 0 then
      Some(s)
    else
      var before, settle := SettleFirst(cfg, s, n - 1), ByPut(n - 1, Settle);
      if before.None? || s.puts[n - 1].place != Dispatched then before
      else if Enabled(before.value, settle) then Some(Next(cfg, before.value, settle))
      else None
  }

  /** `t` is `s` with the dispatched promises among the first `n` Puts settled. */
  predicate SettledUpTo(s: State, t: State, n: nat) {
    && |t.puts| == |s.puts| && t.balance == s.balance
    && forall p :: 0 <= p < |s.puts| ==>
         t.puts[p] == if p < n && s.puts[p].place == Dispatched then s.puts[p].(place := Settled) else s.puts[p]
  }

  lemma {:induction false} SettleOneMore(cfg: Config, s: State, t: State, n: nat)
    requires Inv(t) && n < |s.puts| && s.puts[n].place == Dispatched && SettledUpTo(s, t, n)
    ensures Enabled(t, ByPut(n, Settle))
    ensures var u := Next(cfg, t, ByPut(n, Settle)); Inv(u) && SettledUpTo(s, u, n + 1)
  {
    assert t.puts[n] == s.puts[n];
    OwedCovers(t.puts, n);
    StepKeepsInv(cfg, t, ByPut(n, Settle));
  }

  lemma SettledSkip(s: State, t: State, n: nat)
    requires SettledUpTo(s, t, n) && n < |s.puts| && s.puts[n].place != Dispatched
    ensures SettledUpTo(s, t, n + 1)
  {
  }

  /** What the recursion of SettleFirst does at Put `n`. */
  lemma SettleFirstStep(cfg: Config, s: State, t: State, n: nat)
    requires n < |s.puts| && SettleFirst(cfg, s, n) == Some(t)
    ensures s.puts[n].place != Dispatched ==> SettleFirst(cfg, s, n + 1) == Some(t)
    ensures s.puts[n].place == Dispatched && Enabled(t, ByPut(n, Settle)) ==>
      SettleFirst(cfg, s, n + 1) == Some(Next(cfg, t, ByPut(n, Settle)))
  {
  }

  /** `t` is what settling the first `n` leads to. */
  predicate Settles(cfg: Config, s: State, n: nat, t: State) {
    n <= |s.puts| && SettleFirst(cfg, s, n) == Some(t) && Inv(t) && SettledUpTo(s, t, n)
  }

  lemma {:induction false} SettlesOneMore(cfg: Config, s: State, n: nat, t: State) returns (u: State)
    requires n < |s.puts| && Settles(cfg, s, n, t)
    ensures Settles(cfg, s, n + 1, u)
  {
    SettleFirstStep(cfg, s, t, n);
    if s.puts[n].place == Dispatched {
      SettleOneMore(cfg, s, t, n);
      u := Next(cfg, t, ByPut(n, Settle));
    } else {
      SettledSkip(s, t, n);
      u := t;
    }
  }

  lemma {:induction false} SettlementsSucceed(cfg: Config, s: State, n: nat) returns (t: State)
    requires Inv(s) && n <= |s.puts|
    ensures Settles(cfg, s, n, t)
  {
    if n == 0 {
      t := s;
    } else {
      t := SettlementsSucceed(cfg, s, n - 1);
      t := SettlesOneMore(cfg, s, n - 1, t);
    }
  }

  /** Main result: after any run in which seeding comes first, all dispatched promises can settle, all of
      them together. */
  lemma {:induction false} EveryPromiseSettles(cfg: Config, steps: seq<Step>)
    requires ValidStart(cfg) && After(cfg, steps).Some? && SeedsFirst(cfg, steps)
    ensures var s := After(cfg, steps).value;
      && SettleFirst(cfg, s, |s.puts|).Some?
      && forall p :: 0 <= p < |s.puts| && s.puts[p].place == Dispatched ==>
           p < |SettleFirst(cfg, s, |s.puts|).value.puts| && SettleFirst(cfg, s, |s.puts|).value.puts[p].place == Settled
  {
    RunKeepsInv(cfg, steps);
    var s := After(cfg, steps).value;
    var t := SettlementsSucceed(cfg, s, |s.puts|);
  }

  // ----- when seeding comes first

  predicate PastSeeding(place: Place) {
    !(place == LoadSeeded || place == CheckGrace || place == LockSeed || HoldsSeedLock(place) || place == Failed)
  }

  /** Without a grace period a Put that left ensureSeeded, and any refill, found the ledger seeded. */
  predicate Disciplined(s: State) {
    && !s.grace
    && (forall p :: 0 <= p < |s.puts| && PastSeeding(s.puts[p].place) ==> s.seeded)
    && (s.refills != [] ==> s.seeded)
  }

  lemma {:induction false} StepKeepsDiscipline(cfg: Config, s: State, step: Step)
    requires Disciplined(s) && Enabled(s, step)
    ensures SeedFirst(s, step) && Disciplined(Next(cfg, s, step))
  {
    match step
    case ByPut(p, action) =>
      assert PastSeeding(PlaceAfter(cfg, s, s.puts[p], action)) ==> PutEffect(s, s.puts[p], action).seeded;
    case _ =>
  }

  lemma {:induction false} NoGraceSeedsFirst(cfg: Config, steps: seq<Step>)
    requires !cfg.grace && After(cfg, steps).Some?
    ensures SeedsFirst(cfg, steps) && Disciplined(After(cfg, steps).value)
  {
    if steps != [] {
      var n := |steps| - 1;
      NoGraceSeedsFirst(cfg, steps[..n]);
      StepKeepsDiscipline(cfg, After(cfg, steps[..n]).value, steps[n]);
    }
  }

  /** A Put that runs alone up to the seeding lock. */
  lemma {:induction false} ReachSeeding(cfg: Config, steps: seq<Step>, amount: nat) returns (longer: seq<Step>)
    requires After(cfg, steps).Some?
    requires var s := After(cfg, steps).value; !s.seeded && !s.grace && !s.seedLock
    ensures var s := After(cfg, steps).value;
      After(cfg, longer) == Some(s.(puts := s.puts + [Put(amount, Seeding)], seedLock := true))
  {
    var s := After(cfg, steps).value;
    var p := |s.puts|;
    longer := Extend(cfg, steps, s, Arrive(amount));
    longer := Extend(cfg, longer, After(cfg, longer).value, ByPut(p, Load));
    longer := Extend(cfg, longer, After(cfg, longer).value, ByPut(p, ReadGrace));
    longer := Extend(cfg, longer, After(cfg, longer).value, ByPut(p, Lock));
    assert After(cfg, longer).value.puts == s.puts + [Put(amount, Seeding)];
  }

  /** Seeding makes the whole escrow on chain available locally, whatever is owed. */
  lemma {:induction false} SeedOverwrites(cfg: Config, steps: seq<Step>) returns (longer: seq<Step>)
    requires After(cfg, steps).Some?
    requires var s := After(cfg, steps).value; !s.seeded && !s.grace && !s.seedLock && s.chain >= 0
    ensures After(cfg, longer).Some?
    ensures var s := After(cfg, steps).value; var t := After(cfg, longer).value;
      t.balance == s.chain == t.chain && Owed(t.puts) == Owed(s.puts) && t.legacy == s.legacy
  {
    var s := After(cfg, steps).value;
    longer := ReachSeeding(cfg, steps, 0);
    var locked := s.(puts := s.puts + [Put(0, Seeding)], seedLock := true);
    var queried := LastPutQueries(cfg, locked);
    longer := Extend(cfg, longer, locked, ByPut(|s.puts|, Query));
    longer := Extend(cfg, longer, queried, ByPut(|s.puts|, Write));
  }

  /** The query and the write of the Put that holds the seeding lock. */
  lemma {:induction false} LastPutQueries(cfg: Config, s: State) returns (t: State)
    requires s.puts != [] && s.puts[|s.puts| - 1] == Put(0, Seeding) && !s.seeded && s.chain >= 0
    ensures var p := |s.puts| - 1;
      && Enabled(s, ByPut(p, Query)) && t == Next(cfg, s, ByPut(p, Query)) && Enabled(t, ByPut(p, Write))
      && var u := Next(cfg, t, ByPut(p, Write));
         u.balance == s.chain == u.chain && Owed(u.puts) == Owed(s.puts[..p]) && u.legacy == s.legacy
  {
    var p := |s.puts| - 1;
    t := Next(cfg, s, ByPut(p, Query));
    var u := Next(cfg, t, ByPut(p, Write));
    assert u.puts[..p] == s.puts[..p];
  }

  /** A Put that reads the clock within the grace period leaves ensureSeeded without seeding, and can
      still be there when the period ends. */
  lemma {:induction false} PassDuringGrace(cfg: Config) returns (run: seq<Step>)
    requires cfg.grace && cfg.legacy <= cfg.chain
    ensures After(cfg, run) == Some(Begin(cfg).(
      chain := cfg.chain - cfg.legacy, legacy := 0, grace := false, puts := [Put(1, Admitting)]))
  {
    var s := Begin(cfg).(chain := cfg.chain - cfg.legacy, legacy := 0);
    run := Extend(cfg, [], Begin(cfg), SettleLegacy(cfg.legacy));
    run := Extend(cfg, run, s, Arrive(1));
    assert Next(cfg, s, Arrive(1)).puts == [Put(1, LoadSeeded)];
    s := s.(puts := [Put(1, LoadSeeded)]);
    run := Extend(cfg, run, s, ByPut(0, Load));
    assert Next(cfg, s, ByPut(0, Load)).puts == [Put(1, CheckGrace)];
    s := s.(puts := [Put(1, CheckGrace)]);
    run := Extend(cfg, run, s, ByPut(0, ReadGrace));
    assert Next(cfg, s, ByPut(0, ReadGrace)).puts == [Put(1, Admitting)];
    s := s.(puts := [Put(1, Admitting)]);
    run := Extend(cfg, run, s, GraceEnds);
  }

  /** It then finds no budget and waits. */
  lemma {:induction false} WaitUnseeded(cfg: Config, steps: seq<Step>, s: State) returns (run: seq<Step>)
    requires After(cfg, steps) == Some(s) && s.puts == [Put(1, Admitting)] && s.balance == 0 && !s.grace && cfg.high > 0
    ensures After(cfg, run) == Some(s.(puts := [Put(1, Polling)]))
  {
    run := Extend(cfg, steps, s, ByPut(0, Admit));
    run := Extend(cfg, run, After(cfg, run).value, ByPut(0, EnterWait));
    assert After(cfg, run).value.puts == [Put(1, Polling)];
  }

  /** A refill that runs alone gets as far as its deposit. */
  lemma {:induction false} RefillDeposits(cfg: Config, steps: seq<Step>, s: State) returns (run: seq<Step>)
    requires After(cfg, steps) == Some(s) && s.puts == [Put(1, Polling)] && s.refills == []
    requires s.balance == 0 && !s.grace && !s.refilling && cfg.high > 0
    ensures After(cfg, run) == Some(s.(refilling := true, refills := [Depositing(cfg.high, false)]))
  {
    run := Extend(cfg, steps, s, StartRefill(0));
    run := Extend(cfg, run, After(cfg, run).value, ByRefill(0, CheckClock));
    run := Extend(cfg, run, After(cfg, run).value, ByRefill(0, TakeFlag));
    run := Extend(cfg, run, After(cfg, run).value, ByRefill(0, Compute));
    assert After(cfg, run).value.refills == [Depositing(cfg.high, false)];
  }

  lemma OnlyRefillSteps(cfg: Config, s: State, r: Refill, deed: RefillAction)
    requires s.refills == [r] && RefillEnabled(r, deed)
    ensures Enabled(s, ByRefill(0, deed))
    ensures Next(cfg, s, ByRefill(0, deed)) == RefillEffect(s, r, deed).(refills := [RefillAfter(cfg, s, r, deed)])
  {
    assert s.refills[0 := RefillAfter(cfg, s, r, deed)] == [RefillAfter(cfg, s, r, deed)];
  }

  /** The deposit lands and is reported. */
  lemma {:induction false} DepositLands(cfg: Config, steps: seq<Step>, s: State, amount: nat) returns (run: seq<Step>)
    requires After(cfg, steps) == Some(s) && s.refills == [Depositing(amount, false)]
    ensures After(cfg, run) == Some(s.(chain := s.chain + amount, refills := [Crediting(amount)]))
  {
    var landed := s.(chain := s.chain + amount, refills := [Depositing(amount, true)]);
    OnlyRefillSteps(cfg, s, Depositing(amount, false), Land);
    run := Extend(cfg, steps, s, ByRefill(0, Land));
    OnlyRefillSteps(cfg, landed, Depositing(amount, true), Report(true));
    run := Extend(cfg, run, landed, ByRefill(0, Report(true)));
  }

  lemma {:induction false} DepositCredited(cfg: Config, steps: seq<Step>, s: State, amount: nat) returns (run: seq<Step>)
    requires After(cfg, steps) == Some(s) && s.refills == [Crediting(amount)]
    ensures After(cfg, run) == Some(s.(balance := s.balance + amount, refills := [Clearing]))
  {
    var t := s.(balance := s.balance + amount, refills := [Clearing]);
    assert Next(cfg, s, ByRefill(0, Credit)) == t by {
      assert s.refills[0 := Clearing] == [Clearing];
    }
    run := Extend(cfg, steps, s, ByRefill(0, Credit));
  }

  /** With a grace period some run admits before seeding, and seeding then hands out held funds again. */
  lemma {:induction false} GraceOvercommits(cfg: Config) returns (run: seq<Step>)
    requires cfg.grace && cfg.legacy <= cfg.chain && cfg.high > 0
    ensures After(cfg, run).Some? && !Solvent(After(cfg, run).value)
  {
    run := PassDuringGrace(cfg);
    run := WaitUnseeded(cfg, run, After(cfg, run).value);
    run := RefillDeposits(cfg, run, After(cfg, run).value);
    run := DepositLands(cfg, run, After(cfg, run).value, cfg.high);
    run := DepositCredited(cfg, run, After(cfg, run).value, cfg.high);
    run := Extend(cfg, run, After(cfg, run).value, ByPut(0, Admit));
    var s := After(cfg, run).value;
    assert s.puts == [Put(1, Held)];
    OwedCovers(s.puts, 0);
    run := SeedOverwrites(cfg, run);
  }

  /** Without a grace period, seeding counts funds that promises of an earlier process still claim. */
  lemma {:induction false} RestartOvercommits(cfg: Config) returns (run: seq<Step>)
    requires !cfg.grace && 0 < cfg.legacy <= cfg.chain
    ensures After(cfg, run).Some? && !Solvent(After(cfg, run).value)
  {
    run := SeedOverwrites(cfg, []);
  }

  ghost predicate AlwaysSolvent(cfg: Config) {
    forall steps :: After(cfg, steps).Some? ==> Solvent(After(cfg, steps).value)
  }

  /** Main result: every interleaving is solvent exactly when the grace period is off and the process
      starts with no promise outstanding. */
  lemma {:induction false} AlwaysSolventExactly(cfg: Config)
    requires cfg.high > 0 && cfg.legacy <= cfg.chain
    ensures AlwaysSolvent(cfg) <==> !cfg.grace && cfg.legacy == 0
  {
    if cfg.grace {
      var run := GraceOvercommits(cfg);
    } else if cfg.legacy > 0 {
      var run := RestartOvercommits(cfg);
    } else {
      forall steps | After(cfg, steps).Some? ensures Solvent(After(cfg, steps).value) {
        NoGraceSeedsFirst(cfg, steps);
        RunKeepsInv(cfg, steps);
      }
    }
  }
}
