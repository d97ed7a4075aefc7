/** Collecting validator signatures up to a voting-power threshold
    (fibre/validator/signature_set.go), and what a completed collection guarantees. */
module SignatureSet {
  import opened Arithmetic
  import opened Basics
  import opened RowAssignment
  import RowLiveness

  type Signature = seq<bv8>

  datatype Collected = Collected(signatures: seq<Option<Signature>>, power: nat, required: nat, enough: bool)

  /** Threshold of a new collection; the division rounds down. */
  function RequiredPower(total: nat, target: Fraction): nat
    requires target.denominator > 0
  {
    ProductNonNegative(total, target.numerator);
    DivIsBracketed(total * target.numerator, target.denominator);
    total * target.numerator / target.denominator
  }

  datatype State = State(votingPower: nat, signatures: map<string, Signature>)

  /** The outcome of one `Add`: `verifies` is Ed25519 verification against the required bytes. */
  function Added(s: State, verifies: (Validator, Signature) -> bool, val: Validator, sig: Signature): State {
    if !verifies(val, sig) || val.address in s.signatures then
      s
    else
      State(s.votingPower + val.power, s.signatures[val.address := sig])
  }

  class SignatureSet {
    const minRequiredVotingPower: nat
    const validators: seq<Validator>
    const verifies: (Validator, Signature) -> bool
    var votingPower: nat
    var signatures: map<string, Signature>

    ghost function Now(): State
      reads this
    {
      State(votingPower, signatures)
    }

    constructor (vs: seq<Validator>, target: Fraction, verifies: (Validator, Signature) -> bool)
      requires target.denominator > 0
      ensures Now() == State(0, map[])
      ensures validators == vs && this.verifies == verifies
      ensures minRequiredVotingPower == RequiredPower(TotalPower(vs), target)
    {
      minRequiredVotingPower := RequiredPower(TotalPower(vs), target);
      validators := vs;
      this.verifies := verifies;
      votingPower := 0;
      signatures := map[];
    }

    /** Returns None for an invalid signature, otherwise whether the threshold is met. */
    method Add(val: Validator, sig: Signature) returns (r: Option<bool>)
      modifies this
      ensures Now() == Added(old(Now()), verifies, val, sig)
      ensures r.None? <==> !verifies(val, sig)
      ensures r.Some? ==> r.value == (votingPower >= minRequiredVotingPower)
    {
      if !verifies(val, sig) {
        return None;
      }
      if val.address in signatures {
        return Some(votingPower >= minRequiredVotingPower);
      }
      votingPower := votingPower + val.power;
      signatures := signatures[val.address := sig];
      return Some(votingPower >= minRequiredVotingPower);
    }

    /** The signatures in validator-set order; `enough` is false for the source's
        NotEnoughSignaturesError, which carries the same fields. */
    method Signatures() returns (c: Collected)
      ensures |c.signatures| == |validators|
      ensures forall i :: 0 <= i < |validators| ==>
        c.signatures[i] == (if validators[i].address in signatures then Some(signatures[validators[i].address]) else None)
      ensures c.power == votingPower && c.required == minRequiredVotingPower
      ensures c.enough <==> votingPower >= minRequiredVotingPower
    {
      var ordered := new Option<Signature>[|validators|](_ => None);
      for i := 0 to |validators|
        invariant forall k :: 0 <= k < |validators| ==>
          ordered[k] == (if k < i && validators[k].address in signatures then Some(signatures[validators[k].address]) else None)
      {
        if validators[i].address in signatures {
          ordered[i] := Some(signatures[validators[i].address]);
        }
      }
      return Collected(ordered[..], votingPower, minRequiredVotingPower, votingPower >= minRequiredVotingPower);
    }
  }

  // ----- any sequence of Add calls counts every signer once

  datatype Call = Call(validator: nat, sig: Signature)

  /** The state after the calls, each naming a validator of the set by its index. */
  function Run(vs: seq<Validator>, verifies: (Validator, Signature) -> bool, calls: seq<Call>): State
    requires forall c <- calls :: c.validator < |vs|
  {
    if calls == [] then
      State(0, map[])
    else
      var last := calls[|calls| - 1];
      Added(Run(vs, verifies, calls[..|calls| - 1]), verifies, vs[last.validator], last.sig)
  }

  /** Validators for which some call carried a valid signature. */
  function Signers(vs: seq<Validator>, verifies: (Validator, Signature) -> bool, calls: seq<Call>): set<nat>
    requires forall c <- calls :: c.validator < |vs|
  {
    set c | c in calls && verifies(vs[c.validator], c.sig) :: c.validator
  }

  lemma {:induction false} PowerOfAdded(vs: seq<Validator>, members: set<nat>, v: nat, n: nat)
    requires n <= |vs| && v < |vs| && v !in members
    ensures PowerOf(vs, members + {v}, n) == PowerOf(vs, members, n) + (if v < n then vs[v].power else 0)
  {
    if n > 0 {
      PowerOfAdded(vs, members, v, n - 1);
    }
  }

  lemma {:induction false} PowerOfEmpty(vs: seq<Validator>, n: nat)
    requires n <= |vs|
    ensures PowerOf(vs, {}, n) == 0
  {
    if n > 0 {
      PowerOfEmpty(vs, n - 1);
    }
  }

  /** Main result: whatever the order and the repetitions, the collected power is the power of the
      distinct validators that signed validly, and exactly they have an entry. */
  lemma {:induction false} RunCountsSignersOnce(vs: seq<Validator>, verifies: (Validator, Signature) -> bool, calls: seq<Call>)
    requires ValidSet(vs) && forall c <- calls :: c.validator < |vs|
    ensures var s := Run(vs, verifies, calls);
      && s.votingPower == PowerOf(vs, Signers(vs, verifies, calls), |vs|)
      && forall i :: 0 <= i < |vs| ==> (vs[i].address in s.signatures <==> i in Signers(vs, verifies, calls))
  {
    if calls == [] {
      assert Signers(vs, verifies, calls) == {};
      PowerOfEmpty(vs, |vs|);
    } else {
      var n := |calls| - 1;
      var front, last := calls[..n], calls[n];
      RunCountsSignersOnce(vs, verifies, front);
      var before := Signers(vs, verifies, front);
      if verifies(vs[last.validator], last.sig) {
        assert Signers(vs, verifies, calls) == before + {last.validator};
        if last.validator !in before {
          PowerOfAdded(vs, before, last.validator, |vs|);
        } else {
          assert before + {last.validator} == before;
        }
      } else {
        assert Signers(vs, verifies, calls) == before;
      }
    }
  }

  // ----- what a met threshold guarantees

  lemma {:induction false} PowerOfDifference(vs: seq<Validator>, members: set<nat>, faulty: set<nat>, n: nat)
    requires n <= |vs|
    ensures PowerOf(vs, members - faulty, n) + PowerOf(vs, faulty, n) >= PowerOf(vs, members, n)
  {
    if n > 0 {
      PowerOfDifference(vs, members, faulty, n - 1);
    }
  }

  /** The margin a threshold leaves, exactly: whatever power was collected at or above `required`, what
      remains without the faulty power reaches the liveness fraction if and only if it does at
      `required` itself. */
  lemma MarginExact(total: nat, required: nat, faulty: nat, liveness: Fraction)
    ensures (forall p: nat :: p >= required ==> RemainsLive(p, faulty, total, liveness))
       <==> RemainsLive(required, faulty, total, liveness)
  {
    if RemainsLive(required, faulty, total, liveness) {
      forall p: nat | p >= required ensures RemainsLive(p, faulty, total, liveness) {
        MulLe(required - faulty, p - faulty, liveness.denominator);
      }
    }
  }

  predicate RemainsLive(collected: nat, faulty: nat, total: nat, liveness: Fraction) {
    (collected - faulty) * liveness.denominator >= total * liveness.numerator
  }

  /** Two thirds of a total, rounded down. */
  lemma TwoThirds(q: nat, r: nat)
    requires r < 3
    ensures (3 * q + r) * 2 / 3 == 2 * q + r / 2
  {
    assert (3 * q + r) * 2 == 3 * (2 * q) + 2 * r;
  }

  lemma OneThirdRemains(q: nat, r: nat, f: nat)
    requires r < 3 && r != 1 && 3 * f < 3 * q + r
    ensures (2 * q + r / 2 - f) * 3 >= 3 * q + r
  {
  }

  /** With thresholds 2/3 and 1/3, less than a third of faulty stake always leaves a live set, except
      when the total is one more than a multiple of three: the threshold rounds down. */
  lemma TwoThirdsMinusOneThird(total: nat)
    requires total > 0
    ensures (forall f: nat :: 3 * f < total ==> RemainsLive(RequiredPower(total, Fraction(2, 3)), f, total, Fraction(1, 3)))
       <==> total % 3 != 1
  {
    var m, q, r := RequiredPower(total, Fraction(2, 3)), total / 3, total % 3;
    assert m == 2 * q + r / 2 by {
      TwoThirds(q, r);
      assert total == 3 * q + r;
    }
    if r == 1 {
      assert 3 * q < total && !RemainsLive(m, q, total, Fraction(1, 3));
    } else {
      forall f: nat | 3 * f < total ensures RemainsLive(m, f, total, Fraction(1, 3)) {
        OneThirdRemains(q, r, f);
      }
    }
  }

  /** The smallest such total: two of four suffice to sign, one may be faulty, one of four remains. */
  lemma RoundingGap()
    ensures RequiredPower(4, Fraction(2, 3)) == 2
    ensures 3 * 1 < 4 && !RemainsLive(2, 1, 4, Fraction(1, 3))
  {
    assert RequiredPower(4, Fraction(2, 3)) == 8 / 3;
  }

  /** The stake of the honest signers. */
  lemma {:induction false} HonestSignersAreLive(vs: seq<Validator>, liveness: Fraction, target: Fraction,
      verifies: (Validator, Signature) -> bool, calls: seq<Call>, faulty: set<nat>)
    requires ValidSet(vs) && target.denominator > 0 && forall c <- calls :: c.validator < |vs|
    requires Run(vs, verifies, calls).votingPower >= RequiredPower(TotalPower(vs), target)
    requires RemainsLive(RequiredPower(TotalPower(vs), target), PowerOf(vs, faulty, |vs|), TotalPower(vs), liveness)
    ensures PowerOf(vs, Signers(vs, verifies, calls) - faulty, |vs|) * liveness.denominator >= TotalPower(vs) * liveness.numerator
  {
    var signers := Signers(vs, verifies, calls);
    RunCountsSignersOnce(vs, verifies, calls);
    PowerOfDifference(vs, signers, faulty, |vs|);
    MulLe(RequiredPower(TotalPower(vs), target) - PowerOf(vs, faulty, |vs|), PowerOf(vs, signers - faulty, |vs|),
      liveness.denominator);
  }

  /** Main result: once `Signatures` succeeds, and if the threshold leaves a live set without the faulty
      signers, the honest signers hold enough distinct rows to reconstruct if and only if their stretches
      cover as many positions; and that is so whenever none of their stretches wraps. */
  lemma {:induction false} SignedBlobIsReconstructable(vs: seq<Validator>, l: Layout, draw: nat -> nat, totalRows: nat,
      target: Fraction, verifies: (Validator, Signature) -> bool, calls: seq<Call>, faulty: set<nat>)
    requires ValidSet(vs) && Usable(TotalPower(vs), l) && totalRows > 0 && target.denominator > 0
    requires forall c <- calls :: c.validator < |vs|
    requires Run(vs, verifies, calls).votingPower >= RequiredPower(TotalPower(vs), target)
    requires RemainsLive(RequiredPower(TotalPower(vs), target), PowerOf(vs, faulty, |vs|), TotalPower(vs), l.liveness)
    ensures var honest, rows := Signers(vs, verifies, calls) - faulty, RowsPerValidator(vs, l);
      var held := |RowLiveness.Held(ShuffledRows(totalRows, draw), rows, honest, |vs|)|;
      && (held >= l.originalRows <==> |RowLiveness.Covered(totalRows, rows, honest, |vs|)| >= l.originalRows)
      && (RowLiveness.NoneWraps(totalRows, rows, honest, |vs|) ==> held >= l.originalRows)
  {
    var honest, rows := Signers(vs, verifies, calls) - faulty, RowsPerValidator(vs, l);
    RowLiveness.ReconstructsExactly(vs, l, draw, totalRows, honest);
    if RowLiveness.NoneWraps(totalRows, rows, honest, |vs|) {
      HonestSignersAreLive(vs, l.liveness, target, verifies, calls, faulty);
      RowLiveness.LivenessSetReconstructs(vs, l, draw, totalRows, honest);
    }
  }
}
