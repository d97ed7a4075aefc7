/** Download order of the validators (fibre/validator/set.go, Select and shuffleByStake). */
module RowSelection {
  import opened Arithmetic
  import opened RowAssignment

  function Paired(vs: seq<Validator>, l: Layout): (s: seq<Selected>)
    requires Usable(TotalPower(vs), l)
    ensures |s| == |vs|
  {
    seq(|vs|, i requires 0 <= i < |vs| => Selected(vs[i], RowsPerValidator(vs, l)[i]))
  }

  function DistributedRows(l: Layout): nat
    requires l.liveness.numerator > 0
  {
    ProductNonNegative(l.originalRows, l.liveness.denominator);
    DivIsBracketed(l.originalRows * l.liveness.denominator, l.liveness.numerator);
    l.originalRows * l.liveness.denominator / l.liveness.numerator
  }

  function MinStake(total: nat, l: Layout): nat
    requires l.liveness.numerator > 0 && DistributedRows(l) > 0
  {
    ProductNonNegative(l.minRows, total);
    CeilDiv(l.minRows * total, DistributedRows(l))
  }

  /** Stake, raised to at least `minStake`, of the first `n` validators. */
  function Accumulated(vs: seq<Validator>, minStake: nat, n: nat): nat
    requires n <= |vs|
  {
    if n == 0 then 0 else Accumulated(vs, minStake, n - 1) + Max(vs[n - 1].power, minStake)
  }

  /** `k` is the split point: the longest prefix whose raised stake stays within the total. */
  predicate IsSplit(vs: seq<Validator>, l: Layout, k: nat)
    requires l.liveness.numerator > 0 && DistributedRows(l) > 0
  {
    var minStake := MinStake(TotalPower(vs), l);
    && k <= |vs|
    && Accumulated(vs, minStake, k) <= TotalPower(vs)
    && (k < |vs| ==> Accumulated(vs, minStake, k + 1) > TotalPower(vs))
  }

  function Weight(s: seq<Selected>): nat {
    if s == [] then 0 else s[0].validator.power + Weight(s[1..])
  }

  predicate PositiveWeights(s: seq<Selected>) {
    forall k :: 0 <= k < |s| ==> s[k].validator.power > 0
  }

  lemma PositiveWeight(s: seq<Selected>)
    requires PositiveWeights(s) && s != []
    ensures Weight(s) > 0
  {
  }

  /** Stake-weighted choice: the entry whose interval of the weight line holds `point`. */
  function Pick(s: seq<Selected>, point: nat): (j: nat)
    requires s != []
    ensures j < |s|
  {
    if |s| == 1 || point < s[0].validator.power then 0 else 1 + Pick(s[1..], point - s[0].validator.power)
  }

  function SwapFirst(s: seq<Selected>, j: nat): (t: seq<Selected>)
    requires j < |s|
    ensures |t| == |s|
    ensures PositiveWeights(s) ==> PositiveWeights(t) && PositiveWeights(t[1..])
  {
    s[0 := s[j]][j := s[0]]
  }

  /** The shuffle of a group: choose by stake, move the choice to the front, and go on with the rest.
      `draw` is the random number drawn when so many entries remain. */
  function ByStake(s: seq<Selected>, draw: nat -> nat): (t: seq<Selected>)
    requires PositiveWeights(s)
    ensures |t| == |s|
    decreases |s|
  {
    if |s| < 2 then
      s
    else
      PositiveWeight(s);
      var t := SwapFirst(s, Pick(s, draw(|s|) % Weight(s)));
      [t[0]] + ByStake(t[1..], draw)
  }

  lemma SwapIsPermutation(u: seq<Selected>, i: nat, j: nat)
    requires i < |u| && j < |u|
    ensures multiset(u[i := u[j]][j := u[i]]) == multiset(u)
  {
  }

  /** Main result: whatever is drawn, the shuffle only permutes its group. */
  lemma {:induction false} ByStakeIsPermutation(s: seq<Selected>, draw: nat -> nat)
    requires PositiveWeights(s)
    ensures multiset(ByStake(s, draw)) == multiset(s)
    decreases |s|
  {
    if |s| >= 2 {
      PositiveWeight(s);
      var j := Pick(s, draw(|s|) % Weight(s));
      var t := SwapFirst(s, j);
      ByStakeIsPermutation(t[1..], draw);
      SwapIsPermutation(s, 0, j);
      assert t == [t[0]] + t[1..];
    }
  }

  lemma {:induction false} WeightSplit(s: seq<Selected>, t: seq<Selected>)
    ensures Weight(s + t) == Weight(s) + Weight(t)
  {
    if s == [] {
      assert s + t == t;
    } else {
      WeightSplit(s[1..], t);
      assert (s + t)[1..] == s[1..] + t;
    }
  }

  lemma WeightExtend(s: seq<Selected>, j: nat)
    requires j < |s|
    ensures Weight(s[..j + 1]) == Weight(s[..j]) + s[j].validator.power
  {
    WeightSplit(s[..j], [s[j]]);
    assert s[..j + 1] == s[..j] + [s[j]];
  }

  /** The choice is fixed by the interval that holds the point. */
  lemma {:induction false} PickIs(s: seq<Selected>, point: nat, j: nat)
    requires j < |s| && Weight(s[..j]) <= point < Weight(s[..j]) + s[j].validator.power
    ensures Pick(s, point) == j
  {
    if j > 0 {
      assert s[..j][1..] == s[1..][..j - 1];
      PickIs(s[1..], point - s[0].validator.power, j - 1);
    }
  }

  method PickByStake(a: array<Selected>, i: nat, hi: nat, point: nat) returns (j: nat)
    requires i < hi <= a.Length && point < Weight(a[i..hi])
    ensures i <= j < hi && j - i == Pick(a[i..hi], point)
  {
    ghost var s := a[i..hi];
    assert s[..hi - i] == s;
    var cumul := 0;
    j := i;
    while j < hi
      invariant i <= j <= hi
      invariant cumul == Weight(s[..j - i]) <= point
    {
      WeightExtend(s, j - i);
      cumul := cumul + a[j].validator.power;
      if point < cumul {
        PickIs(s, point, j - i);
        return;
      }
      j := j + 1;
    }
  }

  method TotalWeight(a: array<Selected>, i: nat, hi: nat) returns (w: nat)
    requires i <= hi <= a.Length
    ensures w == Weight(a[i..hi])
  {
    ghost var s := a[i..hi];
    w := 0;
    for j := i to hi
      invariant w == Weight(s[..j - i])
    {
      WeightExtend(s, j - i);
      w := w + a[j].validator.power;
    }
    assert s[..hi - i] == s;
  }

  /** Moves the choice among a[i..hi] to position `i`. */
  method ChooseFirst(a: array<Selected>, i: nat, hi: nat, drawn: nat)
    requires i + 1 < hi <= a.Length && PositiveWeights(a[i..hi])
    modifies a
    ensures Weight(old(a[i..hi])) > 0
    ensures a[i..hi] == SwapFirst(old(a[i..hi]), Pick(old(a[i..hi]), drawn % Weight(old(a[i..hi]))))
    ensures forall k :: (0 <= k < i || hi <= k < a.Length) ==> a[k] == old(a[k])
  {
    PositiveWeight(a[i..hi]);
    var totalWeight := TotalWeight(a, i, hi);
    var j := PickByStake(a, i, hi, drawn % totalWeight);
    a[i], a[j] := a[j], a[i];
  }

  /** `f` shuffles `s` by one choice and then the rest. */
  predicate ShufflesAt(f: seq<Selected> -> seq<Selected>, draw: nat -> nat, s: seq<Selected>) {
    PositiveWeights(s) ==>
      if |s| < 2 then
        f(s) == s
      else
        PositiveWeight(s);
        var t := SwapFirst(s, Pick(s, draw(|s|) % Weight(s)));
        f(s) == [t[0]] + f(t[1..])
  }

  /** What is placed and what remains make up the whole shuffle. */
  predicate Halfway(f: seq<Selected> -> seq<Selected>, placed: seq<Selected>, rest: seq<Selected>, all: seq<Selected>) {
    PositiveWeights(rest) && placed + f(rest) == all
  }

  lemma {:induction false} HalfwayStep(f: seq<Selected> -> seq<Selected>, draw: nat -> nat, placed: seq<Selected>,
                                       rest: seq<Selected>, all: seq<Selected>)
    requires Halfway(f, placed, rest, all) && |rest| >= 2 && Weight(rest) > 0 && ShufflesAt(f, draw, rest)
    ensures var t := SwapFirst(rest, Pick(rest, draw(|rest|) % Weight(rest)));
      Halfway(f, placed + [t[0]], t[1..], all)
  {
    var t := SwapFirst(rest, Pick(rest, draw(|rest|) % Weight(rest)));
    assert placed + ([t[0]] + f(t[1..])) == (placed + [t[0]]) + f(t[1..]);
  }

  /** One round of the shuffle. */
  method PlaceNext(a: array<Selected>, lo: nat, i: nat, hi: nat, draw: nat -> nat,
                   ghost f: seq<Selected> -> seq<Selected>, ghost all: seq<Selected>)
    requires lo <= i && i + 1 < hi <= a.Length && Halfway(f, a[lo..i], a[i..hi], all) && ShufflesAt(f, draw, a[i..hi])
    modifies a
    ensures Halfway(f, a[lo..i + 1], a[i + 1..hi], all)
    ensures forall k :: (0 <= k < lo || hi <= k < a.Length) ==> a[k] == old(a[k])
  {
    ghost var placed := a[lo..i];
    PositiveWeight(a[i..hi]);
    HalfwayStep(f, draw, placed, a[i..hi], all);
    ChooseFirst(a, i, hi, draw(hi - i));
    assert a[lo..i + 1] == placed + [a[i]];
    assert a[i + 1..hi] == a[i..hi][1..];
  }

  /** The loop, against any function that shuffles by one choice and then the rest. */
  method ShuffleLoop(a: array<Selected>, lo: nat, hi: nat, draw: nat -> nat, ghost f: seq<Selected> -> seq<Selected>)
    requires lo <= hi <= a.Length && PositiveWeights(a[lo..hi]) && forall s :: ShufflesAt(f, draw, s)
    modifies a
    ensures a[lo..hi] == f(old(a[lo..hi]))
    ensures forall k :: (0 <= k < lo || hi <= k < a.Length) ==> a[k] == old(a[k])
  {
    ghost var all := f(a[lo..hi]);
    var i := lo;
    assert a[lo..lo] + all == all;
    while i + 1 < hi
      invariant lo <= i <= hi
      invariant Halfway(f, a[lo..i], a[i..hi], all)
      invariant forall k :: (0 <= k < lo || hi <= k < a.Length) ==> a[k] == old(a[k])
    {
      assert ShufflesAt(f, draw, a[i..hi]);
      PlaceNext(a, lo, i, hi, draw, f, all);
      i := i + 1;
    }
    assert ShufflesAt(f, draw, a[i..hi]);
    assert a[lo..hi] == a[lo..i] + a[i..hi];
  }

  /** Shuffles the group a[lo..hi] in place. */
  method ShuffleByStake(a: array<Selected>, lo: nat, hi: nat, draw: nat -> nat)
    requires lo <= hi <= a.Length && PositiveWeights(a[lo..hi])
    modifies a
    ensures a[lo..hi] == ByStake(old(a[lo..hi]), draw)
    ensures forall k :: (0 <= k < lo || hi <= k < a.Length) ==> a[k] == old(a[k])
  {
    ghost var f := (s: seq<Selected>) => if PositiveWeights(s) then ByStake(s, draw) else s;
    forall s ensures ShufflesAt(f, draw, s) {
    }
    ShuffleLoop(a, lo, hi, draw, f);
  }

  /** Shuffles the two groups on either side of `split`, each within itself. */
  method ShuffleBoth(a: array<Selected>, split: nat, front: nat -> nat, back: nat -> nat)
    requires split <= a.Length && PositiveWeights(a[0..split]) && PositiveWeights(a[split..a.Length])
    modifies a
    ensures a[0..split] == ByStake(old(a[0..split]), front)
    ensures a[split..a.Length] == ByStake(old(a[split..a.Length]), back)
  {
    ShuffleByStake(a, 0, split, front);
    assert a[split..a.Length] == old(a[split..a.Length]);
    ghost var first := a[0..split];
    ShuffleByStake(a, split, a.Length, back);
    assert a[0..split] == first;
  }

  method ShuffleGroups(paired: seq<Selected>, split: nat, front: nat -> nat, back: nat -> nat) returns (selected: seq<Selected>)
    requires split <= |paired| && PositiveWeights(paired)
    ensures selected == ByStake(paired[..split], front) + ByStake(paired[split..], back)
  {
    var a := new Selected[|paired|](i requires 0 <= i < |paired| => paired[i]);
    assert a[0..split] == paired[..split] && a[split..a.Length] == paired[split..];
    ShuffleBoth(a, split, front, back);
    selected := a[..];
    assert selected == a[0..split] + a[split..a.Length];
  }

  lemma JoinGroups(a: seq<Selected>, b: seq<Selected>, s: seq<Selected>, split: nat)
    requires split <= |s| && |a| == split && |b| == |s| - split
    requires multiset(a) == multiset(s[..split]) && multiset(b) == multiset(s[split..])
    ensures (a + b)[..split] == a && (a + b)[split..] == b && multiset(a + b) == multiset(s)
  {
    assert s == s[..split] + s[split..];
  }

  /** Main result: each group of the selection is a permutation of its validators with their row counts. */
  lemma {:induction false} GroupsStayTogether(paired: seq<Selected>, split: nat, front: nat -> nat, back: nat -> nat)
    requires split <= |paired| && PositiveWeights(paired)
    ensures var selected := ByStake(paired[..split], front) + ByStake(paired[split..], back);
      && |selected| == |paired|
      && multiset(selected[..split]) == multiset(paired[..split])
      && multiset(selected[split..]) == multiset(paired[split..])
      && multiset(selected) == multiset(paired)
  {
    ByStakeIsPermutation(paired[..split], front);
    ByStakeIsPermutation(paired[split..], back);
    JoinGroups(ByStake(paired[..split], front), ByStake(paired[split..], back), paired, split);
  }

  /** The download order.  `front` and `back` are the random numbers drawn in the two shuffles. */
  method Select(vs: seq<Validator>, l: Layout, front: nat -> nat, back: nat -> nat) returns (selected: seq<Selected>, split: nat)
    requires ValidSet(vs)
    requires |vs| > 0 ==> Usable(TotalPower(vs), l) && DistributedRows(l) > 0
    ensures |vs| == 0 ==> selected == []
    ensures |vs| > 0 ==>
      && IsSplit(vs, l, split) && PositiveWeights(Paired(vs, l))
      && selected == ByStake(Paired(vs, l)[..split], front) + ByStake(Paired(vs, l)[split..], back)
  {
    if |vs| == 0 {
      return [], 0;
    }
    split := FindSplit(vs, l);
    assert PositiveWeights(Paired(vs, l));
    selected := ShuffleGroups(Paired(vs, l), split, front, back);
  }

  /** Walks the validators until their raised stake exceeds the total. */
  method FindSplit(vs: seq<Validator>, l: Layout) returns (splitIdx: nat)
    requires Usable(TotalPower(vs), l) && DistributedRows(l) > 0
    ensures IsSplit(vs, l, splitIdx)
  {
    var totalStake := TotalPower(vs);
    var minStake := MinStake(totalStake, l);
    var accumulated := 0;
    for i := 0 to |vs|
      invariant accumulated == Accumulated(vs, minStake, i) <= totalStake
    {
      accumulated := accumulated + Max(vs[i].power, minStake);
      if accumulated > totalStake {
        return i;
      }
    }
    return |vs|;
  }

  // ----- validators before the split point hold disjoint rows

  /** Ceiling of the proportional share, against the raised stake. */
  lemma ShareAgainstRaised(o: nat, d: nat, power: nat, raised: nat, den: nat, c: nat)
    requires power <= raised && c * den < o * power * d + den
    ensures c * den <= o * d * raised + den
  {
    MulLe(power, raised, o * d);
    assert power * (o * d) == o * power * d;
    assert raised * (o * d) == o * d * raised;
  }

  /** The row floor, against the raised stake. */
  lemma FloorAgainstRaised(minRows: nat, total: nat, n: nat, minStake: nat, t: nat, od: nat, raised: nat)
    requires minRows * total <= minStake * t && t * n <= od && minStake <= raised
    ensures minRows * (total * n) <= od * raised
  {
    MulLe(minRows * total, minStake * t, n);
    MulLe(t * n, od, minStake);
    MulLe(minStake, raised, od);
    Reassociate(minRows, total, n);
    Reassociate(minStake, t, n);
    assert (t * n) * minStake == minStake * (t * n);
  }

  lemma Reassociate(a: int, b: int, c: int)
    ensures (a * b) * c == a * (b * c)
  {
  }

  /** A validator's rows, against its raised stake. */
  lemma RowsAgainstRaisedStake(total: nat, power: nat, l: Layout)
    requires Usable(total, l) && DistributedRows(l) > 0
    ensures AssignedRows(total, power, l) * (total * l.liveness.numerator)
         <= l.originalRows * l.liveness.denominator * Max(power, MinStake(total, l)) + total * l.liveness.numerator
  {
    var o, d, n := l.originalRows, l.liveness.denominator, l.liveness.numerator;
    var den, minStake := total * n, MinStake(total, l);
    var raised := Max(power, minStake);
    ProductPositive(total, n);
    ProductNonNegative(o * power, d);
    ProductNonNegative(o, d);
    ProductNonNegative(l.minRows, total);
    DivIsBracketed(o * d, n);
    var c := CeilDiv(o * power * d, den);
    ShareAgainstRaised(o, d, power, raised, den, c);
    FloorAgainstRaised(l.minRows, total, n, minStake, DistributedRows(l), o * d, raised);
    var rows := AssignedRows(total, power, l);
    if rows <= c {
      MulLe(rows, c, den);
    } else {
      MulLe(rows, l.minRows, den);
    }
  }

  /** Adding one more validator to the prefix. */
  lemma ExtendPrefix(dealt: nat, rows: nat, den: nat, od: nat, acc: nat, raised: nat, k: nat)
    requires dealt * den <= od * acc + k * den && rows * den <= od * raised + den
    ensures (dealt + rows) * den <= od * (acc + raised) + (k + 1) * den
  {
    assert (dealt + rows) * den == dealt * den + rows * den;
    assert od * (acc + raised) == od * acc + od * raised;
    assert (k + 1) * den == k * den + den;
  }

  lemma {:induction false} PrefixAgainstRaisedStake(vs: seq<Validator>, l: Layout, k: nat)
    requires Usable(TotalPower(vs), l) && DistributedRows(l) > 0 && k <= |vs|
    ensures var den := TotalPower(vs) * l.liveness.numerator;
      Offset(RowsPerValidator(vs, l), k) * den
        <= l.originalRows * l.liveness.denominator * Accumulated(vs, MinStake(TotalPower(vs), l), k) + k * den
  {
    if k > 0 {
      PrefixAgainstRaisedStake(vs, l, k - 1);
      RowsAgainstRaisedStake(TotalPower(vs), vs[k - 1].power, l);
      var rows, m := RowsPerValidator(vs, l), MinStake(TotalPower(vs), l);
      ProductPositive(TotalPower(vs), l.liveness.numerator);
      ProductNonNegative(l.originalRows, l.liveness.denominator);
      ExtendPrefix(Offset(rows, k - 1), rows[k - 1], TotalPower(vs) * l.liveness.numerator,
        l.originalRows * l.liveness.denominator, Accumulated(vs, m, k - 1), Max(vs[k - 1].power, m), k - 1);
    }
  }

  lemma CancelLe(a: int, b: int, m: int)
    requires m > 0 && a * m <= b * m
    ensures a <= b
  {
    MultipleIsFar(a - b, m);
    assert (a - b) * m == a * m - b * m;
  }

  /** Dividing the bound on the dealt rows by the total stake, then by the numerator. */
  lemma DealtFits(dealt: nat, total: nat, n: nat, od: nat, acc: nat, split: nat, count: nat, totalRows: nat)
    requires total > 0 && n > 0 && acc <= total && split <= count
    requires dealt * (total * n) <= od * acc + split * (total * n)
    requires od + count * n <= totalRows * n
    ensures dealt <= totalRows
  {
    MulLe(acc, total, od);
    assert acc * od == od * acc && total * od == od * total;
    assert (dealt * n) * total <= (od + split * n) * total by {
      assert (dealt * n) * total == dealt * (total * n);
      assert (od + split * n) * total == od * total + (split * n) * total;
      assert (split * n) * total == split * (total * n);
    }
    CancelLe(dealt * n, od + split * n, total);
    MulLe(split, count, n);
    CancelLe(dealt, totalRows, n);
  }

  /** The rows dealt before the split point fit into one round. */
  lemma SplitFits(vs: seq<Validator>, l: Layout, totalRows: nat, split: nat)
    requires Usable(TotalPower(vs), l) && DistributedRows(l) > 0 && IsSplit(vs, l, split)
    requires l.originalRows * l.liveness.denominator + |vs| * l.liveness.numerator <= totalRows * l.liveness.numerator
    ensures Offset(RowsPerValidator(vs, l), split) <= totalRows
  {
    var total := TotalPower(vs);
    PrefixAgainstRaisedStake(vs, l, split);
    ProductNonNegative(l.originalRows, l.liveness.denominator);
    DealtFits(Offset(RowsPerValidator(vs, l), split), total, l.liveness.numerator,
      l.originalRows * l.liveness.denominator, Accumulated(vs, MinStake(total, l), split), split, |vs|, totalRows);
  }

  /** Main result: validators before `Select`'s split point are dealt pairwise disjoint rows, whenever
      the rows distributed by stake, plus one row of rounding per validator, fit into `totalRows`. */
  lemma BeforeSplitDisjoint(vs: seq<Validator>, l: Layout, draw: nat -> nat, totalRows: nat, split: nat, i: nat, j: nat)
    requires Usable(TotalPower(vs), l) && DistributedRows(l) > 0 && IsSplit(vs, l, split)
    requires l.originalRows * l.liveness.denominator + |vs| * l.liveness.numerator <= totalRows * l.liveness.numerator
    requires i < j < split && totalRows > 0
    ensures var p, rows := ShuffledRows(totalRows, draw), RowsPerValidator(vs, l);
      Disjoint(RowsOf(p, rows, i), RowsOf(p, rows, j))
  {
    var rows := RowsPerValidator(vs, l);
    SplitFits(vs, l, totalRows, split);
    OffsetMonotone(rows, i + 1, split);
    OffsetMonotone(rows, j + 1, split);
    ShuffledRowsIsPermutation(totalRows, draw);
    RunsDisjoint(ShuffledRows(totalRows, draw), rows, i, j);
  }

  lemma AssignedRowsPositive(total: nat, power: nat, l: Layout)
    requires Usable(total, l) && power > 0 && l.originalRows > 0
    ensures AssignedRows(total, power, l) > 0
  {
    ProductPositive(total, l.liveness.numerator);
    ProductPositive(l.originalRows, power);
    ProductPositive(l.originalRows * power, l.liveness.denominator);
    AssignedRowsIsLeast(total, power, l, 0);
  }

  /** Main result: every validator that `Select` returns is expected to serve at least one row, whatever
      the shuffles did; the download session relies on this. */
  lemma {:induction false} SelectedRowsArePositive(vs: seq<Validator>, l: Layout, selected: seq<Selected>, i: nat)
    requires ValidSet(vs) && |vs| > 0 && Usable(TotalPower(vs), l) && l.originalRows > 0
    requires multiset(selected) == multiset(Paired(vs, l)) && i < |selected|
    ensures selected[i].expectedRows > 0
  {
    assert selected[i] in multiset(selected);
    assert selected[i] in Paired(vs, l);
    var j :| 0 <= j < |vs| && Paired(vs, l)[j] == selected[i];
    AssignedRowsPositive(TotalPower(vs), vs[j].power, l);
    assert selected[i].expectedRows == RowsPerValidator(vs, l)[j];
  }
}
