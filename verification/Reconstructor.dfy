/** Collecting verified rows from many sources (pkg/rsema1d/reconstructor.go). */
module Reconstructor {
  import opened Basics
  import opened BinaryLevels
  import opened MerklePath
  import opened RandomCombination
  import opened RowVerifier

  /** Proofs whose index is neither in `seen` nor repeated earlier in the batch, in order. */
  function Novel(seen: set<int>, proofs: seq<RowProof>): seq<RowProof> {
    if proofs == [] then
      []
    else
      var front, p := proofs[..|proofs| - 1], proofs[|proofs| - 1];
      var novel := Novel(seen, front);
      if p.index in seen || p.index in Indices(front) then novel else novel + [p]
  }

  function Indices(proofs: seq<RowProof>): set<int> {
    set p | p in proofs :: p.index
  }

  /** The indices whose flag is set. */
  function Marked(flags: seq<bool>): set<int> {
    set i | 0 <= i < |flags| && flags[i]
  }

  lemma MarkOne(flags: seq<bool>, i: nat)
    requires i < |flags| && !flags[i]
    ensures Marked(flags[i := true]) == Marked(flags) + {i}
    ensures |Marked(flags[i := true])| == |Marked(flags)| + 1
  {
    assert Marked(flags[i := true]) == Marked(flags) + {i};
  }

  lemma NovelStep(seen: set<int>, proofs: seq<RowProof>, i: nat)
    requires i < |proofs|
    ensures Indices(proofs[..i + 1]) == Indices(proofs[..i]) + {proofs[i].index}
    ensures Novel(seen, proofs[..i + 1]) == Novel(seen, proofs[..i]) +
      if proofs[i].index in seen + Indices(proofs[..i]) then [] else [proofs[i]]
  {
    assert proofs[..i + 1][..i] == proofs[..i];
    assert proofs[..i + 1] == proofs[..i] + [proofs[i]];
  }

  /** What has been kept and marked when the batch is processed up to position `i`. */
  predicate Compacted(seen: set<int>, batch: seq<RowProof>, i: nat, kept: seq<RowProof>, marked: set<int>)
    requires i <= |batch|
  {
    kept == Novel(seen, batch[..i]) && marked == seen + Indices(batch[..i])
  }

  lemma CompactedStep(seen: set<int>, batch: seq<RowProof>, i: nat, kept: seq<RowProof>, marked: set<int>)
    requires i < |batch| && Compacted(seen, batch, i, kept, marked)
    ensures Compacted(seen, batch, i + 1, kept + if batch[i].index in marked then [] else [batch[i]], marked + {batch[i].index})
  {
    NovelStep(seen, batch, i);
  }

  /** Whether the verifier holds validated combinations, and its cache. */
  datatype Checker = Checker(installed: bool, cache: Cache)

  /** Verification of one batch: against the installed combinations, or against the caller's own, which
      become installed if the batch passes. */
  function Verified(cfg: Config, lib: Lib, commitment: Node, s: Checker, proofs: seq<RowProof>, rlc: seq<GF128>): (r: (bool, Checker))
    requires Shaped(cfg, lib) && |s.cache.shards| == cfg.k + cfg.n
    ensures |r.1.cache.shards| == cfg.k + cfg.n
  {
    if !s.installed && |rlc| != cfg.k then
      (false, s)
    else
      var cache := if s.installed then s.cache else Loaded(cfg, lib, rlc);
      var (ok, after) := Checked(cfg, lib, cache, commitment, proofs);
      (ok, Checker(s.installed || ok, after))
  }

  predicate Shaped(cfg: Config, lib: Lib) {
    && cfg.k == Pow2(cfg.kDepth)
    && |lib.matrix| == cfg.n && forall i :: 0 <= i < cfg.n ==> |lib.matrix[i]| == cfg.k
  }

  // ----- the collector

  class Reconstructor {
    const cfg: Config
    const lib: Lib
    const commitment: Node
    const verifier: Verifier
    const seen: array<bool>
    var verifierRLC: bool
    var have: nat

    ghost predicate Valid()
      reads this, verifier, seen
    {
      && verifier.Valid() && verifier.cfg == cfg && verifier.lib == lib
      && seen.Length == cfg.k + cfg.n
      && have == |Marked(seen[..])|
    }

    ghost function Now(): Checker
      reads this, verifier
    {
      Checker(verifierRLC, verifier.Now())
    }

    constructor (cfg: Config, lib: Lib, commitment: Node)
      requires ValidSetup(cfg, lib)
      ensures Valid() && fresh(verifier) && fresh(seen)
      ensures this.cfg == cfg && this.lib == lib && this.commitment == commitment
      ensures !verifierRLC && Marked(seen[..]) == {}
    {
      this.cfg := cfg;
      this.lib := lib;
      this.commitment := commitment;
      verifier := new Verifier(cfg, lib);
      var flags := new bool[cfg.k + cfg.n](_ => false);
      seen := flags;
      verifierRLC := false;
      have := 0;
      new;
      assert Marked(seen[..]) == {};
    }

    /** Verifies a batch and leaves the novel proofs at the front of the array.  A rejected batch marks
        nothing. */
    method Add(proofs: array<RowProof>, rlc: seq<GF128>) returns (ok: bool, count: nat)
      requires Valid()
      modifies this, verifier, seen, proofs
      ensures Valid()
      ensures (ok, Now()) == Verified(cfg, lib, commitment, old(Now()), old(proofs[..]), rlc)
      ensures Marked(seen[..]) == old(Marked(seen[..])) + if ok then Indices(old(proofs[..])) else {}
      ensures count <= proofs.Length
      ensures proofs[..count] == if ok then Novel(old(Marked(seen[..])), old(proofs[..])) else []
    {
      ok := VerifyBatch(proofs[..], rlc);
      if !ok {
        return false, 0;
      }
      count := AddVerified(proofs);
    }

    method VerifyBatch(proofs: seq<RowProof>, rlc: seq<GF128>) returns (ok: bool)
      requires Valid()
      modifies this`verifierRLC, verifier
      ensures Valid()
      ensures (ok, Now()) == Verified(cfg, lib, commitment, old(Now()), proofs, rlc)
      ensures ok ==> ValidBatch(cfg, proofs)
    {
      if verifierRLC {
        ok := verifier.VerifyShared(commitment, proofs);
      } else {
        ok := verifier.Verify(commitment, proofs, rlc);
        if ok {
          verifierRLC := true;
        }
      }
    }

    /** Sets one flag, unless it is set already. */
    method MarkSeen(index: nat) returns (novel: bool)
      requires index < seen.Length && have == |Marked(seen[..])|
      modifies this`have, seen
      ensures novel <==> index !in old(Marked(seen[..]))
      ensures Marked(seen[..]) == old(Marked(seen[..])) + {index} && have == |Marked(seen[..])|
    {
      if seen[index] {
        return false;
      }
      ghost var flags := seen[..];
      MarkOne(flags, index);
      seen[index] := true;
      assert seen[..] == flags[index := true];
      have := have + 1;
      return true;
    }

    /** Handles the proof at `i`, with the novel ones so far in the first `n` places. */
    method AddAt(proofs: array<RowProof>, n: nat, i: nat) returns (kept: nat)
      requires n <= i < proofs.Length && 0 <= proofs[i].index < seen.Length && have == |Marked(seen[..])|
      modifies this`have, seen, proofs
      ensures kept <= i + 1
      ensures have == |Marked(seen[..])| && Marked(seen[..]) == old(Marked(seen[..])) + {old(proofs[i]).index}
      ensures proofs[..kept] == old(proofs[..n]) +
        if old(proofs[i]).index in old(Marked(seen[..])) then [] else [old(proofs[i])]
      ensures forall k :: i < k < proofs.Length ==> proofs[k] == old(proofs[k])
    {
      var p := proofs[i];
      var novel := MarkSeen(p.index);
      if !novel {
        return n;
      }
      ghost var flags := seen[..];
      proofs[n] := p;
      assert seen[..] == flags;
      return n + 1;
    }

    /** Marks the indices as seen and compacts the novel proofs to the front of the array. */
    method AddVerified(proofs: array<RowProof>) returns (n: nat)
      requires seen.Length == cfg.k + cfg.n && have == |Marked(seen[..])|
      requires forall i :: 0 <= i < proofs.Length ==> 0 <= proofs[i].index < cfg.k + cfg.n
      modifies this`have, seen, proofs
      ensures have == |Marked(seen[..])|
      ensures Marked(seen[..]) == old(Marked(seen[..])) + Indices(old(proofs[..]))
      ensures n <= proofs.Length && proofs[..n] == Novel(old(Marked(seen[..])), old(proofs[..]))
    {
      ghost var batch, before := proofs[..], Marked(seen[..]);
      n := 0;
      for i := 0 to proofs.Length
        invariant n <= i && forall k :: i <= k < proofs.Length ==> proofs[k] == batch[k]
        invariant Compacted(before, batch, i, proofs[..n], Marked(seen[..]))
        invariant have == |Marked(seen[..])|
      {
        CompactedStep(before, batch, i, proofs[..n], Marked(seen[..]));
        n := AddAt(proofs, n, i);
      }
      assert batch[..|batch|] == batch;
    }

    /** Distinct rows collected, and rows still needed before the originals can be rebuilt. */
    method Want() returns (w: nat)
      requires Valid()
      ensures w == 0 <==> |Marked(seen[..])| >= cfg.k
      ensures w > 0 ==> w + |Marked(seen[..])| == cfg.k
    {
      w := if have >= cfg.k then 0 else cfg.k - have;
    }
  }

  // ----- whole runs

  /** Concurrent calls interleave in two atomic parts: verification, serialised until combinations are
      installed, and marking, serialised by the lock on the seen flags. */
  datatype Event = Check(proofs: seq<RowProof>, rlc: seq<GF128>) | Mark(proofs: seq<RowProof>)

  datatype Collected = Collected(checker: Checker, seen: set<int>)

  datatype Setting = Setting(cfg: Config, lib: Lib, commitment: Node)

  ghost predicate ValidSetting(x: Setting) {
    ValidSetup(x.cfg, x.lib)
  }

  ghost function AfterEvent(x: Setting, s: Collected, e: Event): (t: Collected)
    requires ValidSetting(x) && |s.checker.cache.shards| == x.cfg.k + x.cfg.n
    ensures |t.checker.cache.shards| == x.cfg.k + x.cfg.n
  {
    match e
    case Check(proofs, rlc) => s.(checker := Verified(x.cfg, x.lib, x.commitment, s.checker, proofs, rlc).1)
    case Mark(proofs) => s.(seen := s.seen + Indices(proofs))
  }

  ghost function Run(x: Setting, events: seq<Event>): (s: Collected)
    requires ValidSetting(x)
    ensures |s.checker.cache.shards| == x.cfg.k + x.cfg.n
  {
    if events == [] then
      Collected(Checker(false, Cache([], seq(x.cfg.k + x.cfg.n, _ => Zero(WIDTH)), None)), {})
    else
      AfterEvent(x, Run(x, events[..|events| - 1]), events[|events| - 1])
  }

  ghost predicate AcceptedAt(x: Setting, events: seq<Event>, i: nat)
    requires ValidSetting(x) && i < |events|
  {
    && events[i].Check?
    && Verified(x.cfg, x.lib, x.commitment, Run(x, events[..i]).checker, events[i].proofs, events[i].rlc).0
  }

  /** Only batches that verification accepted earlier are marked. */
  ghost predicate Legal(x: Setting, events: seq<Event>)
    requires ValidSetting(x)
  {
    forall i :: 0 <= i < |events| && events[i].Mark? ==>
      exists j :: 0 <= j < i && AcceptedAt(x, events, j) && events[j].proofs == events[i].proofs
  }

  /** The novel proofs that marking event `i` hands back. */
  ghost function NovelAt(x: Setting, events: seq<Event>, i: nat): seq<RowProof>
    requires ValidSetting(x) && i < |events|
  {
    if events[i].Mark? then Novel(Run(x, events[..i]).seen, events[i].proofs) else []
  }

  lemma {:induction false} NovelIndices(seen: set<int>, proofs: seq<RowProof>)
    ensures Indices(Novel(seen, proofs)) == Indices(proofs) - seen
    ensures forall i, j :: 0 <= i < j < |Novel(seen, proofs)| ==>
      Novel(seen, proofs)[i].index != Novel(seen, proofs)[j].index
  {
    if proofs != [] {
      var n := |proofs| - 1;
      NovelIndices(seen, proofs[..n]);
      NovelStep(seen, proofs, n);
      assert proofs[..n + 1] == proofs;
      var novel := Novel(seen, proofs[..n]);
      assert Indices(novel + [proofs[n]]) == Indices(novel) + {proofs[n].index};
      assert forall i :: 0 <= i < |novel| ==> novel[i].index in Indices(novel);
    }
  }

  lemma {:induction false} SeenGrows(x: Setting, events: seq<Event>, m: nat, n: nat)
    requires ValidSetting(x) && m <= n <= |events|
    ensures Run(x, events[..m]).seen <= Run(x, events[..n]).seen
    decreases n
  {
    if m < n {
      SeenGrows(x, events, m, n - 1);
      assert events[..n][..n - 1] == events[..n - 1];
    }
  }

  /** Main result: different calls hand back disjoint indices. */
  lemma {:induction false} CallsReturnDisjointIndices(x: Setting, events: seq<Event>, i: nat, j: nat)
    requires ValidSetting(x) && i < j < |events|
    ensures Indices(NovelAt(x, events, i)) !! Indices(NovelAt(x, events, j))
  {
    if events[i].Mark? && events[j].Mark? {
      NovelIndices(Run(x, events[..i]).seen, events[i].proofs);
      NovelIndices(Run(x, events[..j]).seen, events[j].proofs);
      assert events[..i + 1][..i] == events[..i];
      SeenGrows(x, events, i + 1, j);
    }
  }

  /** All novel indices handed back by the first `n` events. */
  ghost function Returned(x: Setting, events: seq<Event>, n: nat): set<int>
    requires ValidSetting(x) && n <= |events|
  {
    if n == 0 then {} else Returned(x, events, n - 1) + Indices(NovelAt(x, events, n - 1))
  }

  /** Main result: the seen indices are exactly those some call handed back. */
  lemma {:induction false} SeenIsReturned(x: Setting, events: seq<Event>, n: nat)
    requires ValidSetting(x) && n <= |events|
    ensures Run(x, events[..n]).seen == Returned(x, events, n)
  {
    if n > 0 {
      SeenIsReturned(x, events, n - 1);
      assert events[..n][..n - 1] == events[..n - 1];
      if events[n - 1].Mark? {
        NovelIndices(Run(x, events[..n - 1]).seen, events[n - 1].proofs);
      }
    }
  }

  lemma EventKeepsInstalled(x: Setting, s: Collected, e: Event)
    requires ValidSetting(x) && |s.checker.cache.shards| == x.cfg.k + x.cfg.n
    requires s.checker.installed ==> s.checker.cache.coeffs.Some?
    ensures var t := AfterEvent(x, s, e);
      && (t.checker.installed ==> t.checker.cache.coeffs.Some?)
      && (s.checker.installed ==> t.checker == s.checker)
  {
  }

  lemma {:induction false} InstalledHoldsCoefficients(x: Setting, events: seq<Event>)
    requires ValidSetting(x)
    ensures var s := Run(x, events).checker;
      s.installed ==> s.cache.coeffs.Some?
  {
    if events != [] {
      var n := |events| - 1;
      InstalledHoldsCoefficients(x, events[..n]);
      EventKeepsInstalled(x, Run(x, events[..n]), events[n]);
    }
  }

  lemma {:induction false} LastEventKeepsInstalled(x: Setting, events: seq<Event>)
    requires ValidSetting(x) && events != [] && Run(x, events[..|events| - 1]).checker.installed
    ensures Run(x, events).checker == Run(x, events[..|events| - 1]).checker
  {
    var n := |events| - 1;
    InstalledHoldsCoefficients(x, events[..n]);
    EventKeepsInstalled(x, Run(x, events[..n]), events[n]);
  }

  /** Main result: once combinations are installed no later event changes the verifier's state. */
  lemma {:induction false} InstalledStateIsFinal(x: Setting, events: seq<Event>, m: nat)
    requires ValidSetting(x) && m <= |events| && Run(x, events[..m]).checker.installed
    ensures Run(x, events).checker == Run(x, events[..m]).checker
  {
    if m == |events| {
      assert events[..m] == events;
    } else {
      var n := |events| - 1;
      assert events[..n][..m] == events[..m];
      InstalledStateIsFinal(x, events[..n], m);
      LastEventKeepsInstalled(x, events);
    }
  }

  /** An accepted batch has the row root and row size that are cached afterwards. */
  lemma {:induction false} AcceptedMatchesCache(x: Setting, events: seq<Event>, i: nat)
    requires ValidSetting(x) && i < |events| && AcceptedAt(x, events, i)
    ensures ValidBatch(x.cfg, events[i].proofs)
    ensures var s := Run(x, events[..i + 1]).checker;
      && s.installed && s.cache.coeffs.Some?
      && ProofRoot(x.lib, events[i].proofs[0]) == Some(s.cache.coeffs.value.rowRoot)
      && 2 * |events[i].proofs[0].row| == s.cache.coeffs.value.rowSize
  {
    assert events[..i + 1][..i] == events[..i];
  }

  /** Main result: all accepted batches of a run have one row root and one row length. */
  lemma {:induction false} AcceptedBatchesAgree(x: Setting, events: seq<Event>, i: nat, j: nat)
    requires ValidSetting(x) && i < j < |events| && AcceptedAt(x, events, i) && AcceptedAt(x, events, j)
    ensures ValidBatch(x.cfg, events[i].proofs) && ValidBatch(x.cfg, events[j].proofs)
    ensures ProofRoot(x.lib, events[i].proofs[0]) == ProofRoot(x.lib, events[j].proofs[0])
    ensures |events[i].proofs[0].row| == |events[j].proofs[0].row|
  {
    AcceptedMatchesCache(x, events, i);
    AcceptedMatchesCache(x, events, j);
    assert events[..j + 1][..i + 1] == events[..i + 1];
    InstalledStateIsFinal(x, events[..j + 1], i + 1);
  }

  /** Event `i` is the acceptance that installed its combinations. */
  ghost predicate InstalledBy(x: Setting, events: seq<Event>, i: nat)
    requires ValidSetting(x) && i < |events|
  {
    AcceptedAt(x, events, i) && !Run(x, events[..i]).checker.installed
  }

  lemma {:induction false} InstalledCache(x: Setting, events: seq<Event>, i: nat)
    requires ValidSetting(x) && i < |events| && InstalledBy(x, events, i)
    ensures |events[i].rlc| == x.cfg.k && Run(x, events[..i + 1]).checker.installed
    ensures var c, loaded := Run(x, events[..i + 1]).checker.cache, Loaded(x.cfg, x.lib, events[i].rlc);
      && c.rlcRoot == loaded.rlcRoot && c.shards == loaded.shards && c.coeffs.Some?
      && ValidCache(x.cfg, x.lib, c)
  {
    assert events[..i + 1][..i] == events[..i];
  }

  /** Main result: every batch accepted later, against whatever combinations its caller held, is one that
      a fresh verifier loaded with the installed combinations accepts. */
  lemma {:induction false} LaterBatchesAcceptedAfresh(x: Setting, events: seq<Event>, i: nat, j: nat)
    requires ValidSetting(x) && i < j < |events| && InstalledBy(x, events, i) && AcceptedAt(x, events, j)
    ensures |events[i].rlc| == x.cfg.k
    ensures Checked(x.cfg, x.lib, Loaded(x.cfg, x.lib, events[i].rlc), x.commitment, events[j].proofs).0
  {
    InstalledCache(x, events, i);
    assert events[..j][..i + 1] == events[..i + 1];
    InstalledStateIsFinal(x, events[..j], i + 1);
    SharedAcceptanceIsFresh(x.cfg, x.lib, events[i].rlc, Run(x, events[..j]).checker.cache, x.commitment, events[j].proofs);
  }

  /** Main result: in a legal run every seen index was carried by an accepted batch, and is in range. */
  lemma {:induction false} SeenIndicesWereVerified(x: Setting, events: seq<Event>, n: nat, index: int) returns (j: nat, p: RowProof)
    requires ValidSetting(x) && Legal(x, events) && n <= |events| && index in Run(x, events[..n]).seen
    ensures j < n && AcceptedAt(x, events, j) && p in events[j].proofs && p.index == index
    ensures 0 <= index < x.cfg.k + x.cfg.n
  {
    var m := n - 1;
    assert events[..n][..m] == events[..m];
    if index in Run(x, events[..m]).seen {
      j, p := SeenIndicesWereVerified(x, events, m, index);
    } else {
      j :| 0 <= j < m && AcceptedAt(x, events, j) && events[j].proofs == events[m].proofs;
      p :| p in events[j].proofs && p.index == index;
      AcceptedMatchesCache(x, events, j);
    }
  }
}
