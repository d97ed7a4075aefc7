/** The download session together with the reconstructor that its workers share (fibre/download.go and
    pkg/rsema1d/reconstructor.go).  Here a worker marks rows because the reconstructor accepted them:
    that they are some, in range and of one length is proved, not asked. */
module VerifiedDownload {
  import opened Basics
  import D = DownloadSession
  import R = Reconstructor
  import V = RowVerifier
  import C = RandomCombination

  /** `Dispatch` is any step of the session but an accepted shard; `Check` is the verification of some
      worker's batch, passed or not; `Mark` is a worker marking the batch accepted by event `check`. */
  datatype Action =
    | Dispatch(step: D.Step)
    | Check(proofs: seq<V.RowProof>, rlc: seq<C.GF128>)
    | Mark(worker: nat, check: nat)

  /** The session's state, and what the session and the reconstructor have done. */
  datatype Download = Download(session: D.State, steps: seq<D.Step>, events: seq<R.Event>)

  function Begin(): Download {
    Download(D.Begin(), [], [])
  }

  /** The session downloads what the reconstructor is set up for. */
  predicate Matches(x: R.Setting, cfg: D.Config) {
    cfg.originalRows == x.cfg.k && cfg.totalRows == x.cfg.k + x.cfg.n
  }

  ghost predicate Possible(x: R.Setting, cfg: D.Config, d: Download, a: Action)
    requires R.ValidSetting(x)
  {
    match a
    case Dispatch(step) => !step.Accept? && D.Enabled(cfg, d.session, step)
    case Check(_, _) => true
    case Mark(w, check) =>
      && w < |d.session.workers| && d.session.workers[w] == D.Fetching
      && check < |d.events| && R.AcceptedAt(x, d.events, check)
  }

  function RowIndices(proofs: seq<V.RowProof>): set<nat> {
    set i: nat | i in R.Indices(proofs)
  }

  /** Bytes per row. */
  function RowLength(proofs: seq<V.RowProof>): nat {
    if proofs == [] then 0 else 2 * |proofs[0].row|
  }

  ghost function Perform(x: R.Setting, cfg: D.Config, d: Download, a: Action): Download
    requires R.ValidSetting(x) && Possible(x, cfg, d, a)
  {
    match a
    case Dispatch(step) => d.(session := D.Next(cfg, d.session, step), steps := d.steps + [step])
    case Check(proofs, rlc) => d.(events := d.events + [R.Check(proofs, rlc)])
    case Mark(w, check) =>
      var proofs := d.events[check].proofs;
      var indices, len := RowIndices(proofs), RowLength(proofs);
      Download(D.Accepted(d.session, w, indices, len), d.steps + [D.Accept(w, indices, len)],
        d.events + [R.Mark(proofs)])
  }

  ghost function After(x: R.Setting, cfg: D.Config, actions: seq<Action>): Option<Download>
    requires R.ValidSetting(x)
  {
    if actions == [] then
      Some(Begin())
    else
      var before, a := After(x, cfg, actions[..|actions| - 1]), actions[|actions| - 1];
      if before.Some? && Possible(x, cfg, before.value, a) then Some(Perform(x, cfg, before.value, a)) else None
  }

  // ----- the session's assumptions about verification hold

  /** The session ran as `DownloadSession` allows, saw what the reconstructor saw, and settled on the
      row size of the installed combinations. */
  ghost predicate Inv(x: R.Setting, cfg: D.Config, d: Download)
    requires R.ValidSetting(x)
  {
    && D.After(cfg, d.steps) == Some(d.session)
    && |d.session.workers| == d.session.cursor <= |cfg.expected|
    && R.Legal(x, d.events)
    && d.session.seen == R.Run(x, d.events).seen
    && (d.session.rowLen.Some? ==> Settled(x, d.events, d.session.rowLen.value))
  }

  ghost predicate Settled(x: R.Setting, events: seq<R.Event>, len: nat)
    requires R.ValidSetting(x)
  {
    var s := R.Run(x, events).checker;
    s.installed && s.cache.coeffs.Some? && s.cache.coeffs.value.rowSize == len
  }

  lemma SettledPersists(x: R.Setting, events: seq<R.Event>, e: R.Event, len: nat)
    requires R.ValidSetting(x) && Settled(x, events, len)
    ensures Settled(x, events + [e], len)
  {
    assert (events + [e])[..|events|] == events;
    R.InstalledStateIsFinal(x, events + [e], |events|);
  }

  /** An accepted batch settles the row size, and carries at least one index, all in range. */
  lemma {:induction false} AcceptanceSettles(x: R.Setting, events: seq<R.Event>, check: nat)
    requires R.ValidSetting(x) && check < |events| && R.AcceptedAt(x, events, check)
    ensures var proofs := events[check].proofs;
      && V.ValidBatch(x.cfg, proofs)
      && Settled(x, events, RowLength(proofs))
      && RowIndices(proofs) != {} && RowIndices(proofs) == R.Indices(proofs)
      && forall i <- RowIndices(proofs) :: i < x.cfg.k + x.cfg.n
  {
    var proofs := events[check].proofs;
    R.AcceptedMatchesCache(x, events, check);
    R.InstalledStateIsFinal(x, events, check + 1);
    assert proofs[0].index in RowIndices(proofs);
  }

  lemma {:induction false} AcceptedStays(x: R.Setting, events: seq<R.Event>, e: R.Event, i: nat)
    requires R.ValidSetting(x) && i < |events|
    ensures R.AcceptedAt(x, events + [e], i) <==> R.AcceptedAt(x, events, i)
  {
    assert (events + [e])[..i] == events[..i];
  }

  lemma {:induction false} LegalGrows(x: R.Setting, events: seq<R.Event>, e: R.Event)
    requires R.ValidSetting(x) && R.Legal(x, events)
    requires e.Mark? ==> exists j :: 0 <= j < |events| && R.AcceptedAt(x, events, j) && events[j].proofs == e.proofs
    ensures R.Legal(x, events + [e])
  {
    var more := events + [e];
    forall i | 0 <= i < |more| && more[i].Mark?
      ensures exists j :: 0 <= j < i && R.AcceptedAt(x, more, j) && more[j].proofs == more[i].proofs
    {
      var j: nat :| j < i && R.AcceptedAt(x, events, j) && events[j].proofs == more[i].proofs;
      AcceptedStays(x, events, e, j);
      assert more[j] == events[j];
    }
  }

  /** The bridge: whatever the reconstructor accepted, the session step that marks it is enabled. */
  lemma {:induction false} MarkIsEnabled(x: R.Setting, cfg: D.Config, d: Download, w: nat, check: nat)
    requires R.ValidSetting(x) && Matches(x, cfg) && Inv(x, cfg, d) && Possible(x, cfg, d, Mark(w, check))
    ensures var proofs := d.events[check].proofs;
      D.Enabled(cfg, d.session, D.Accept(w, RowIndices(proofs), RowLength(proofs)))
  {
    AcceptanceSettles(x, d.events, check);
  }

  lemma EventExtendsRun(x: R.Setting, events: seq<R.Event>, e: R.Event)
    requires R.ValidSetting(x)
    ensures R.Run(x, events + [e]) == R.AfterEvent(x, R.Run(x, events), e)
  {
    assert (events + [e])[..|events|] == events;
  }

  lemma {:induction false} DispatchKeepsInv(x: R.Setting, cfg: D.Config, d: Download, step: D.Step)
    requires R.ValidSetting(x) && Inv(x, cfg, d) && Possible(x, cfg, d, Dispatch(step))
    ensures Inv(x, cfg, Perform(x, cfg, d, Dispatch(step)))
  {
    D.StepExtendsRun(cfg, d.steps, d.session, step);
  }

  lemma {:induction false} CheckKeepsInv(x: R.Setting, cfg: D.Config, d: Download, proofs: seq<V.RowProof>, rlc: seq<C.GF128>)
    requires R.ValidSetting(x) && Inv(x, cfg, d)
    ensures Inv(x, cfg, Perform(x, cfg, d, Check(proofs, rlc)))
  {
    var e := R.Check(proofs, rlc);
    EventExtendsRun(x, d.events, e);
    LegalGrows(x, d.events, e);
    if d.session.rowLen.Some? {
      SettledPersists(x, d.events, e, d.session.rowLen.value);
    }
  }

  lemma {:induction false} MarkKeepsInv(x: R.Setting, cfg: D.Config, d: Download, w: nat, check: nat)
    requires R.ValidSetting(x) && Matches(x, cfg) && Inv(x, cfg, d) && Possible(x, cfg, d, Mark(w, check))
    ensures Inv(x, cfg, Perform(x, cfg, d, Mark(w, check)))
  {
    var proofs := d.events[check].proofs;
    var e := R.Mark(proofs);
    MarkIsEnabled(x, cfg, d, w, check);
    D.StepExtendsRun(cfg, d.steps, d.session, D.Accept(w, RowIndices(proofs), RowLength(proofs)));
    AcceptanceSettles(x, d.events, check);
    EventExtendsRun(x, d.events, e);
    LegalGrows(x, d.events, e);
    SettledPersists(x, d.events, e, RowLength(proofs));
  }

  /** Main result: however calls interleave, the session runs as `DownloadSession` describes, sees
      exactly the indices its reconstructor saw, and settles on the reconstructor's row size. */
  lemma {:induction false} RunsRefine(x: R.Setting, cfg: D.Config, actions: seq<Action>)
    requires R.ValidSetting(x) && Matches(x, cfg) && After(x, cfg, actions).Some?
    ensures Inv(x, cfg, After(x, cfg, actions).value)
  {
    if actions != [] {
      var n := |actions| - 1;
      RunsRefine(x, cfg, actions[..n]);
      var d := After(x, cfg, actions[..n]).value;
      match actions[n]
      case Dispatch(step) => DispatchKeepsInv(x, cfg, d, step);
      case Check(proofs, rlc) => CheckKeepsInv(x, cfg, d, proofs, rlc);
      case Mark(w, check) => MarkKeepsInv(x, cfg, d, w, check);
    } else {
      assert R.Run(x, []).seen == {};
    }
  }

  /** Some accepted batch carries row `i`, of `len` bytes. */
  ghost predicate CarriedBy(x: R.Setting, events: seq<R.Event>, i: nat, len: nat)
    requires R.ValidSetting(x)
  {
    exists j, p :: 0 <= j < |events| && R.AcceptedAt(x, events, j) && p in events[j].proofs && p.index == i && 2 * |p.row| == len
  }

  lemma {:induction false} SeenWasCarried(x: R.Setting, events: seq<R.Event>, i: nat, len: nat)
    requires R.ValidSetting(x) && R.Legal(x, events) && i in R.Run(x, events).seen && Settled(x, events, len)
    ensures CarriedBy(x, events, i, len)
  {
    assert events[..|events|] == events;
    var j, p := R.SeenIndicesWereVerified(x, events, |events|, i);
    AcceptanceSettles(x, events, j);
    assert 2 * |p.row| == len;
  }

  /** Main result: when dispatch stops, every filled slot is for a row that an accepted batch carried,
      and has that row's length; and all seen rows have their slot if and only if nothing was seen or
      the length of the accepted rows is within the limit. */
  lemma {:induction false} StoppedHoldsVerifiedRows(x: R.Setting, cfg: D.Config, actions: seq<Action>)
    requires R.ValidSetting(x) && Matches(x, cfg) && D.PositiveReservations(cfg)
    requires After(x, cfg, actions).Some? && After(x, cfg, actions).value.session.disp == D.Stopped
    ensures var d := After(x, cfg, actions).value;
      && (forall i <- d.session.slots :: CarriedBy(x, d.events, i, d.session.slots[i]))
      && (d.session.slots.Keys == d.session.seen <==>
            d.session.seen == {} || (d.session.rowLen.Some? && !D.TooLong(cfg, d.session.rowLen.value)))
  {
    RunsRefine(x, cfg, actions);
    var d := After(x, cfg, actions).value;
    D.StoppedMeansStored(cfg, d.steps);
    D.RunKeepsInv(cfg, d.steps);
    forall i | i in d.session.slots ensures CarriedBy(x, d.events, i, d.session.slots[i]) {
      SeenWasCarried(x, d.events, i, d.session.slots[i]);
    }
  }
}
