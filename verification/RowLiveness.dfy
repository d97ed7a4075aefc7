/** Stake at the liveness fraction holds enough rows to reconstruct (fibre/validator/set.go). */
module RowLiveness {
  import opened Arithmetic
  import opened RowAssignment

  /** The distinct rows held by the members among the first `n` validators. */
  function Held(p: seq<nat>, rows: seq<nat>, members: set<nat>, n: nat): set<nat>
    requires |p| > 0 && n <= |rows|
  {
    if n == 0 then {} else
      Held(p, rows, members, n - 1) + (if n - 1 in members then SetOf(RowsOf(p, rows, n - 1)) else {})
  }

  /** Rows dealt to the members among the first `n` validators, counted with repetition. */
  function RowsSum(rows: seq<nat>, members: set<nat>, n: nat): nat
    requires n <= |rows|
  {
    if n == 0 then 0 else RowsSum(rows, members, n - 1) + (if n - 1 in members then rows[n - 1] else 0)
  }

  // ----- the positions of the shuffled list that a set of validators covers

  /** `count` positions from `offset` on, around a list of `total`. */
  function Stretch(total: nat, offset: nat, count: nat): set<nat>
    requires total > 0
  {
    if count == 0 then {} else Stretch(total, offset, count - 1) + {(offset + (count - 1)) % total}
  }

  /** The positions dealt to the members among the first `n` validators.  Stakes and layout fix them. */
  function Covered(total: nat, rows: seq<nat>, members: set<nat>, n: nat): set<nat>
    requires total > 0 && n <= |rows|
  {
    if n == 0 then {} else
      Covered(total, rows, members, n - 1) +
        (if n - 1 in members then Stretch(total, Offset(rows, n - 1), rows[n - 1]) else {})
  }

  /** The rows at the positions `s`. */
  function RowsAt(p: seq<nat>, s: set<nat>): set<nat>
    requires forall x :: x in s ==> x < |p|
  {
    set x | x in s :: p[x]
  }

  lemma {:induction false} RowsAtSize(p: seq<nat>, s: set<nat>)
    requires IsPermutation(p) && forall x :: x in s ==> x < |p|
    ensures |RowsAt(p, s)| == |s|
    decreases |s|
  {
    if s != {} {
      var x :| x in s;
      RowsAtSize(p, s - {x});
      assert RowsAt(p, s) == RowsAt(p, s - {x}) + {p[x]};
    }
  }

  lemma RowsAtUnion(p: seq<nat>, s: set<nat>, t: set<nat>)
    requires forall x :: x in s + t ==> x < |p|
    ensures RowsAt(p, s + t) == RowsAt(p, s) + RowsAt(p, t)
  {
  }

  lemma {:induction false} StretchHolds(p: seq<nat>, offset: nat, count: nat)
    requires |p| > 0
    ensures forall x :: x in Stretch(|p|, offset, count) ==> x < |p|
    ensures SetOf(Dealt(p, offset, count)) == RowsAt(p, Stretch(|p|, offset, count))
  {
    if count > 0 {
      StretchHolds(p, offset, count - 1);
      var x := (offset + (count - 1)) % |p|;
      assert Dealt(p, offset, count) == Dealt(p, offset, count - 1) + [p[x]];
      RowsAtUnion(p, Stretch(|p|, offset, count - 1), {x});
      assert RowsAt(p, {x}) == {p[x]};
    }
  }

  /** The rows held are the rows at the covered positions. */
  lemma {:induction false} HeldIsCovered(p: seq<nat>, rows: seq<nat>, members: set<nat>, n: nat)
    requires |p| > 0 && n <= |rows|
    ensures forall x :: x in Covered(|p|, rows, members, n) ==> x < |p|
    ensures Held(p, rows, members, n) == RowsAt(p, Covered(|p|, rows, members, n))
  {
    if n > 0 {
      HeldIsCovered(p, rows, members, n - 1);
      if n - 1 in members {
        var before, run := Covered(|p|, rows, members, n - 1), Stretch(|p|, Offset(rows, n - 1), rows[n - 1]);
        StretchHolds(p, Offset(rows, n - 1), rows[n - 1]);
        RowsAtUnion(p, before, run);
      }
    }
  }

  /** However the rows were shuffled, as many distinct rows are held as positions are covered. */
  lemma HeldCount(p: seq<nat>, rows: seq<nat>, members: set<nat>, n: nat)
    requires IsPermutation(p) && 0 < |p| && n <= |rows|
    ensures |Held(p, rows, members, n)| == |Covered(|p|, rows, members, n)|
  {
    HeldIsCovered(p, rows, members, n);
    RowsAtSize(p, Covered(|p|, rows, members, n));
  }

  /** Main result: a set of validators can rebuild the blob if and only if it covers `originalRows`
      positions, which stakes and layout decide before anything is drawn. */
  lemma {:induction false} ReconstructsExactly(vs: seq<Validator>, l: Layout, draw: nat -> nat, totalRows: nat, members: set<nat>)
    requires Usable(TotalPower(vs), l) && totalRows > 0
    ensures |Held(ShuffledRows(totalRows, draw), RowsPerValidator(vs, l), members, |vs|)| >= l.originalRows <==>
      |Covered(totalRows, RowsPerValidator(vs, l), members, |vs|)| >= l.originalRows
  {
    ShuffledRowsIsPermutation(totalRows, draw);
    HeldCount(ShuffledRows(totalRows, draw), RowsPerValidator(vs, l), members, |vs|);
  }

  // ----- stretches that do not wrap

  lemma ModSmall(x: nat, n: nat)
    requires x < n
    ensures x % n == x
  {
  }

  lemma {:induction false} StretchSize(total: nat, offset: nat, count: nat)
    requires total > 0 && offset + count <= total
    ensures |Stretch(total, offset, count)| == count
    ensures forall x :: x in Stretch(total, offset, count) ==> offset <= x < offset + count
  {
    if count > 0 {
      StretchSize(total, offset, count - 1);
      ModSmall(offset + (count - 1), total);
    }
  }

  lemma {:induction false} StretchBelow(total: nat, offset: nat, count: nat)
    requires total > 0
    ensures forall x :: x in Stretch(total, offset, count) ==> x < offset + count
  {
    if count > 0 {
      StretchBelow(total, offset, count - 1);
    }
  }

  /** Wrapped or not, a covered position lies before the end of the last stretch. */
  lemma {:induction false} CoveredBelow(total: nat, rows: seq<nat>, members: set<nat>, n: nat)
    requires total > 0 && n <= |rows|
    ensures forall x :: x in Covered(total, rows, members, n) ==> x < Offset(rows, n)
  {
    if n > 0 {
      CoveredBelow(total, rows, members, n - 1);
      StretchBelow(total, Offset(rows, n - 1), rows[n - 1]);
    }
  }

  /** No stretch of a member among the first `n` validators wraps. */
  predicate NoneWraps(total: nat, rows: seq<nat>, members: set<nat>, n: nat)
    requires n <= |rows|
  {
    forall i :: 0 <= i < n && i in members ==> Offset(rows, i + 1) <= total
  }

  /** Members whose stretches do not wrap cover as many positions as they were dealt rows. */
  lemma {:induction false} CoveredSize(total: nat, rows: seq<nat>, members: set<nat>, n: nat)
    requires total > 0 && n <= |rows| && NoneWraps(total, rows, members, n)
    ensures |Covered(total, rows, members, n)| == RowsSum(rows, members, n)
  {
    if n > 0 {
      CoveredSize(total, rows, members, n - 1);
      if n - 1 in members {
        CoveredBelow(total, rows, members, n - 1);
        StretchSize(total, Offset(rows, n - 1), rows[n - 1]);
        assert Covered(total, rows, members, n - 1) !! Stretch(total, Offset(rows, n - 1), rows[n - 1]);
      }
    }
  }

  /** Adding one more uncapped member. */
  lemma ExtendMembers(sum: nat, row: nat, den: int, o: nat, d: nat, powers: nat, power: nat)
    requires sum * den >= o * d * powers && row * den >= o * d * power
    ensures (sum + row) * den >= o * d * (powers + power)
  {
    assert (sum + row) * den == sum * den + row * den;
    assert o * d * (powers + power) == o * d * powers + o * d * power;
  }

  /** One validator's rows against its stake, unless capped. */
  lemma RowAgainstStake(vs: seq<Validator>, l: Layout, i: nat)
    requires Usable(TotalPower(vs), l) && i < |vs|
    ensures var row := RowsPerValidator(vs, l)[i];
      row >= l.originalRows ||
      row * (TotalPower(vs) * l.liveness.numerator) >= l.originalRows * l.liveness.denominator * vs[i].power
  {
    var o, d, power := l.originalRows, l.liveness.denominator, vs[i].power;
    ProductPositive(TotalPower(vs), l.liveness.numerator);
    ProductNonNegative(o * power, d);
    var den := TotalPower(vs) * l.liveness.numerator;
    var c := CeilDiv(o * power * d, den);
    assert o * d * power == o * power * d;
    if c <= RowsPerValidator(vs, l)[i] {
      MulLe(c, RowsPerValidator(vs, l)[i], den);
    }
  }

  /** Each member's rows, against its stake; a capped member alone has enough rows. */
  lemma {:induction false} RowsAgainstStake(vs: seq<Validator>, l: Layout, members: set<nat>, n: nat)
    requires Usable(TotalPower(vs), l) && n <= |vs|
    ensures var sum := RowsSum(RowsPerValidator(vs, l), members, n);
      || sum >= l.originalRows
      || sum * (TotalPower(vs) * l.liveness.numerator)
           >= l.originalRows * l.liveness.denominator * PowerOf(vs, members, n)
  {
    if n > 0 {
      RowsAgainstStake(vs, l, members, n - 1);
      var rows := RowsPerValidator(vs, l);
      var sum := RowsSum(rows, members, n - 1);
      if n - 1 in members && rows[n - 1] < l.originalRows && sum < l.originalRows {
        RowAgainstStake(vs, l, n - 1);
        ExtendMembers(sum, rows[n - 1], TotalPower(vs) * l.liveness.numerator, l.originalRows, l.liveness.denominator,
          PowerOf(vs, members, n - 1), vs[n - 1].power);
      }
    }
  }

  /** Enough stake makes enough rows. */
  lemma StakeSuffices(sum: nat, total: nat, num: nat, o: nat, d: nat, power: nat)
    requires total * num > 0 && power * d >= total * num
    requires sum * (total * num) >= o * d * power
    ensures sum >= o
  {
    MulLe(total * num, power * d, o);
    assert (power * d) * o == o * d * power;
    MultipleIsFar(o - sum, total * num);
    assert (o - sum) * (total * num) == o * (total * num) - sum * (total * num);
    assert (total * num) * o == o * (total * num);
  }

  /** Main result: validators whose runs do not wrap past `totalRows` and whose stake is at least the
      liveness fraction of the total hold at least `originalRows` distinct rows. */
  lemma {:induction false} LivenessSetReconstructs(vs: seq<Validator>, l: Layout, draw: nat -> nat, totalRows: nat, members: set<nat>)
    requires Usable(TotalPower(vs), l) && totalRows > 0
    requires NoneWraps(totalRows, RowsPerValidator(vs, l), members, |vs|)
    requires PowerOf(vs, members, |vs|) * l.liveness.denominator >= TotalPower(vs) * l.liveness.numerator
    ensures |Held(ShuffledRows(totalRows, draw), RowsPerValidator(vs, l), members, |vs|)| >= l.originalRows
  {
    var rows := RowsPerValidator(vs, l);
    ReconstructsExactly(vs, l, draw, totalRows, members);
    CoveredSize(totalRows, rows, members, |vs|);
    RowsAgainstStake(vs, l, members, |vs|);
    if RowsSum(rows, members, |vs|) < l.originalRows {
      ProductPositive(TotalPower(vs), l.liveness.numerator);
      StakeSuffices(RowsSum(rows, members, |vs|), TotalPower(vs), l.liveness.numerator,
        l.originalRows, l.liveness.denominator, PowerOf(vs, members, |vs|));
    }
  }

  lemma {:induction false} ThreePositionsCovered()
    ensures Covered(8, [2, 2, 2, 1, 1, 1], {0, 4, 5}, 6) == {0, 1, 7}
  {
    var rows, m := [2, 2, 2, 1, 1, 1], {0, 4, 5};
    assert Offset(rows, 3) == 6 && Offset(rows, 5) == 8;
    assert Stretch(8, 0, 2) == {0, 1} && Stretch(8, 7, 1) == {7} && Stretch(8, 8, 1) == {0};
    assert Covered(8, rows, m, 2) == {0, 1};
    assert Covered(8, rows, m, 4) == {0, 1};
  }

  lemma {:induction false} ThreeRowsHeld(p: seq<nat>)
    requires IsPermutation(p) && |p| == 8
    ensures |Held(p, [2, 2, 2, 1, 1, 1], {0, 4, 5}, 6)| == 3
  {
    var rows, m, n := [2, 2, 2, 1, 1, 1], {0, 4, 5}, 6;
    assert |Covered(|p|, rows, m, n)| == 3 by {
      ThreePositionsCovered();
    }
    HeldCount(p, rows, m, n);
  }

  /** Without the no-wrap condition the same claim fails: here half the stake, at a liveness fraction
      of one half, holds three distinct rows although four are needed, whatever the shuffle. */
  lemma {:induction false} WrappedSetFallsShort(draw: nat -> nat)
    ensures var vs := [Validator("a", 4), Validator("b", 3), Validator("c", 3),
                       Validator("d", 2), Validator("e", 2), Validator("f", 2)];
      var l := Layout(4, 1, Fraction(1, 2));
      && Usable(TotalPower(vs), l)
      && PowerOf(vs, {0, 4, 5}, 6) * 2 >= TotalPower(vs)
      && |Held(ShuffledRows(8, draw), RowsPerValidator(vs, l), {0, 4, 5}, 6)| == 3
  {
    var vs := [Validator("a", 4), Validator("b", 3), Validator("c", 3),
               Validator("d", 2), Validator("e", 2), Validator("f", 2)];
    var l := Layout(4, 1, Fraction(1, 2));
    assert PrefixPower(vs, 3) == 10;
    assert PrefixPower(vs, 5) == 14;
    assert TotalPower(vs) == 16;
    assert PowerOf(vs, {0, 4, 5}, 3) == 4;
    assert RowsPerValidator(vs, l) == [2, 2, 2, 1, 1, 1];
    ShuffledRowsIsPermutation(8, draw);
    ThreeRowsHeld(ShuffledRows(8, draw));
  }
}
