/** Stake-weighted assignment of coded rows to validators (fibre/validator/set.go).

    Every validator is dealt a run of consecutive positions of a shuffled list of row indices; the runs
    follow one another and wrap around when they exceed the number of rows.  Integers are unbounded
    here: the source's int64 products are assumed not to overflow. */
module RowAssignment {
  import opened Arithmetic

  datatype Validator = Validator(address: string, power: nat)

  datatype Fraction = Fraction(numerator: nat, denominator: nat)

  /** The parameters that `Assign` and `Select` share. */
  datatype Layout = Layout(originalRows: nat, minRows: nat, liveness: Fraction)

  datatype Selected = Selected(validator: Validator, expectedRows: nat)

  /** What a consensus validator set guarantees: distinct addresses and positive voting powers. */
  predicate ValidSet(vs: seq<Validator>) {
    && (forall i :: 0 <= i < |vs| ==> vs[i].power > 0)
    && (forall i, j :: 0 <= i < j < |vs| ==> vs[i].address != vs[j].address)
  }

  function TotalPower(vs: seq<Validator>): nat {
    PrefixPower(vs, |vs|)
  }

  function PrefixPower(vs: seq<Validator>, n: nat): nat
    requires n <= |vs|
  {
    if n == 0 then 0 else PrefixPower(vs, n - 1) + vs[n - 1].power
  }

  /** Voting power of those of the first `n` validators whose index is in `members`. */
  function PowerOf(vs: seq<Validator>, members: set<nat>, n: nat): nat
    requires n <= |vs|
  {
    if n == 0 then 0 else PowerOf(vs, members, n - 1) + (if n - 1 in members then vs[n - 1].power else 0)
  }

  /** Neither division of the source divides by zero. */
  predicate Usable(total: nat, l: Layout) {
    total > 0 && l.liveness.numerator > 0 && l.liveness.denominator > 0
  }

  function Min(a: int, b: int): int { if a <= b then a else b }

  function Max(a: int, b: int): int { if a >= b then a else b }

  function CeilDiv(a: nat, b: nat): (r: nat)
    requires b > 0
    ensures a <= r * b < a + b
  {
    DivIsBracketed(a + b - 1, b);
    (a + b - 1) / b
  }

  lemma DivIsBracketed(a: nat, b: nat)
    requires b > 0
    ensures (a / b) * b <= a < (a / b) * b + b
    ensures a / b >= 0
  {
    DivMonotone(0, a, b);
  }

  /** The number of rows dealt to a validator with voting power `power` out of `total`. */
  function AssignedRows(total: nat, power: nat, l: Layout): (rows: nat)
    requires Usable(total, l)
    ensures rows <= l.originalRows
  {
    ProductPositive(total, l.liveness.numerator);
    var num := l.originalRows * power * l.liveness.denominator;
    var den := total * l.liveness.numerator;
    ProductNonNegative(l.originalRows * power, l.liveness.denominator);
    Min(Max(CeilDiv(num, den), l.minRows), l.originalRows)
  }

  lemma ProductPositive(a: nat, b: nat)
    requires a > 0 && b > 0
    ensures a * b > 0
  {
  }

  lemma ProductNonNegative(a: int, b: int)
    requires a >= 0 && b >= 0
    ensures a * b >= 0
  {
  }

  /** The count is the least one that reaches both the minimum and the validator's share, unless capped at
      the rows that suffice for reconstruction. */
  lemma AssignedRowsIsLeast(total: nat, power: nat, l: Layout, r: nat)
    requires Usable(total, l)
    ensures var rows := AssignedRows(total, power, l);
      var num, den := l.originalRows * power * l.liveness.denominator, total * l.liveness.numerator;
      && (rows < l.originalRows ==> rows >= l.minRows && rows * den >= num)
      && (r < rows ==> r < l.minRows || r * den < num)
  {
    ProductPositive(total, l.liveness.numerator);
    ProductNonNegative(l.originalRows * power, l.liveness.denominator);
    var num, den := l.originalRows * power * l.liveness.denominator, total * l.liveness.numerator;
    var rows, c := AssignedRows(total, power, l), CeilDiv(num, den);
    if c <= rows {
      MulLe(c, rows, den);
    }
    if r + 1 <= c {
      MulLe(r + 1, c, den);
      assert (r + 1) * den == r * den + den;
    }
  }

  function RowsPerValidator(vs: seq<Validator>, l: Layout): (rows: seq<nat>)
    requires Usable(TotalPower(vs), l)
    ensures |rows| == |vs|
    ensures forall i :: 0 <= i < |vs| ==> rows[i] == AssignedRows(TotalPower(vs), vs[i].power, l)
  {
    seq(|vs|, i requires 0 <= i < |vs| => AssignedRows(TotalPower(vs), vs[i].power, l))
  }

  /** Position at which the run of validator `i` begins; `Offset(rows, |rows|)` is the number of rows
      dealt in all. */
  function Offset(rows: seq<nat>, i: nat): nat
    requires i <= |rows|
  {
    if i == 0 then 0 else Offset(rows, i - 1) + rows[i - 1]
  }

  // ----- rows as sets

  predicate NoDuplicates(s: seq<nat>) {
    forall i, j :: 0 <= i < j < |s| ==> s[i] != s[j]
  }

  function SetOf(s: seq<nat>): set<nat> {
    set r | r in s
  }

  lemma {:induction false} SetOfSize(s: seq<nat>)
    ensures |SetOf(s)| <= |s|
    ensures NoDuplicates(s) <==> |SetOf(s)| == |s|
  {
    if s != [] {
      var t := s[..|s| - 1];
      SetOfSize(t);
      var x := s[|s| - 1];
      assert SetOf(s) == SetOf(t) + {x};
      assert NoDuplicates(s) <==> NoDuplicates(t) && x !in t;
    }
  }

  lemma SubsetSize(a: set<nat>, b: set<nat>)
    requires a <= b && |b| <= |a|
    ensures a == b
  {
    assert b == a + (b - a);
    assert |b| == |a| + |b - a|;
  }

  // ----- the shuffle

  ghost predicate IsPermutation(p: seq<nat>) {
    && (forall i :: 0 <= i < |p| ==> p[i] < |p|)
    && (forall i, j :: 0 <= i < j < |p| ==> p[i] != p[j])
  }

  function Swap(p: seq<nat>, i: nat, j: nat): seq<nat>
    requires i < |p| && j < |p|
  {
    p[i := p[j]][j := p[i]]
  }

  /** The index that the swap at `i` picks.  `draw(i)` stands for the number drawn, at index `i`, from the
      generator seeded with the commitment. */
  function SwapWith(draw: nat -> nat, i: nat): (j: nat)
    ensures j <= i
  {
    draw(i) % (i + 1)
  }

  /** The Fisher-Yates swaps for indices `i` down to 1. */
  function Shuffled(p: seq<nat>, i: int, draw: nat -> nat): (q: seq<nat>)
    requires i < |p|
    ensures |q| == |p|
    decreases i
  {
    if i <= 0 then p else Shuffled(Swap(p, i, SwapWith(draw, i)), i - 1, draw)
  }

  function ShuffledRows(totalRows: nat, draw: nat -> nat): (q: seq<nat>)
    ensures |q| == totalRows
  {
    Shuffled(seq(totalRows, i => i), totalRows - 1, draw)
  }

  /** Every row index occurs in a permutation. */
  lemma PermutationIsOnto(p: seq<nat>, r: nat)
    requires IsPermutation(p) && r < |p|
    ensures r in p
  {
    SetOfSize(p);
    BelowIs(|p|);
    SubsetSize(SetOf(p), Below(|p|));
    assert r in SetOf(p);
  }

  function Below(n: nat): set<nat> {
    if n == 0 then {} else Below(n - 1) + {n - 1}
  }

  lemma {:induction false} BelowIs(n: nat)
    ensures |Below(n)| == n
    ensures forall k: nat :: k in Below(n) <==> k < n
  {
    if n > 0 {
      BelowIs(n - 1);
    }
  }

  lemma SwapKeepsPermutation(p: seq<nat>, i: nat, j: nat)
    requires IsPermutation(p) && i < |p| && j < |p|
    ensures IsPermutation(Swap(p, i, j))
  {
  }

  lemma {:induction false} ShuffledIsPermutation(p: seq<nat>, i: int, draw: nat -> nat)
    requires IsPermutation(p) && i < |p|
    ensures IsPermutation(Shuffled(p, i, draw))
    decreases i
  {
    if i > 0 {
      SwapKeepsPermutation(p, i, SwapWith(draw, i));
      ShuffledIsPermutation(Swap(p, i, SwapWith(draw, i)), i - 1, draw);
    }
  }

  lemma ShuffledRowsIsPermutation(totalRows: nat, draw: nat -> nat)
    ensures IsPermutation(ShuffledRows(totalRows, draw))
  {
    ShuffledIsPermutation(seq(totalRows, i => i), totalRows - 1, draw);
  }

  method SwapRows(a: array<nat>, i: nat, j: nat)
    requires i < a.Length && j < a.Length
    modifies a
    ensures a[..] == Swap(old(a[..]), i, j)
  {
    a[i], a[j] := a[j], a[i];
  }

  lemma ShuffledStep(p: seq<nat>, i: nat, draw: nat -> nat)
    requires 0 < i < |p|
    ensures Shuffled(p, i, draw) == Shuffled(Swap(p, i, SwapWith(draw, i)), i - 1, draw)
  {
  }

  /** Shuffles in place, from the last index down. */
  method ShuffleInPlace(a: array<nat>, draw: nat -> nat)
    modifies a
    ensures a[..] == Shuffled(old(a[..]), a.Length - 1, draw)
  {
    ghost var target := Shuffled(a[..], a.Length - 1, draw);
    var i := a.Length - 1;
    while i > 0
      invariant -1 <= i < a.Length
      invariant Shuffled(a[..], i, draw) == target
    {
      ShuffledStep(a[..], i, draw);
      SwapRows(a, i, SwapWith(draw, i));
      i := i - 1;
    }
  }

  method ShuffleRows(totalRows: nat, draw: nat -> nat) returns (rowIndices: seq<nat>)
    ensures rowIndices == ShuffledRows(totalRows, draw)
  {
    var a := new nat[totalRows](i => i);
    assert a[..] == seq(totalRows, i => i);
    ShuffleInPlace(a, draw);
    return a[..];
  }

  // ----- dealing

  /** `count` rows dealt from position `offset` on, wrapping around. */
  function Dealt(p: seq<nat>, offset: nat, count: nat): (d: seq<nat>)
    requires |p| > 0
    ensures |d| == count
  {
    seq(count, j requires 0 <= j < count => p[(offset + j) % |p|])
  }

  /** The rows of validator `i`. */
  function RowsOf(p: seq<nat>, rows: seq<nat>, i: nat): seq<nat>
    requires |p| > 0 && i < |rows|
  {
    Dealt(p, Offset(rows, i), rows[i])
  }

  method DealRows(p: seq<nat>, offset: nat, count: nat) returns (rows: seq<nat>)
    requires |p| > 0
    ensures rows == Dealt(p, offset, count)
  {
    rows := [];
    for j := 0 to count
      invariant rows == Dealt(p, offset, j)
    {
      rows := rows + [p[(offset + j) % |p|]];
    }
  }

  /** Deals the validators their runs one after another, advancing the offset. */
  method DealShards(vs: seq<Validator>, p: seq<nat>, rows: seq<nat>) returns (shards: map<Validator, seq<nat>>)
    requires ValidSet(vs) && |p| > 0 && |rows| == |vs|
    ensures forall v :: v in shards <==> v in vs
    ensures forall i :: 0 <= i < |vs| ==> shards[vs[i]] == RowsOf(p, rows, i)
  {
    shards := map[];
    var offset: nat := 0;
    for v := 0 to |vs|
      invariant offset == Offset(rows, v)
      invariant forall x :: x in shards <==> x in vs[..v]
      invariant forall k :: 0 <= k < v ==> shards[vs[k]] == RowsOf(p, rows, k)
    {
      var dealt := DealRows(p, offset, rows[v]);
      shards := shards[vs[v] := dealt];
      offset := offset + rows[v];
      assert vs[..v + 1] == vs[..v] + [vs[v]];
    }
    assert vs[..|vs|] == vs;
  }

  method Assign(vs: seq<Validator>, draw: nat -> nat, totalRows: nat, l: Layout) returns (shards: map<Validator, seq<nat>>)
    requires ValidSet(vs)
    requires |vs| > 0 ==> Usable(TotalPower(vs), l)
    ensures |vs| == 0 || totalRows == 0 || l.minRows == 0 ==> shards == map[]
    ensures |vs| > 0 && totalRows > 0 && l.minRows > 0 ==>
      && (forall v :: v in shards <==> v in vs)
      && forall i :: 0 <= i < |vs| ==>
           shards[vs[i]] == RowsOf(ShuffledRows(totalRows, draw), RowsPerValidator(vs, l), i)
  {
    if |vs| == 0 || totalRows == 0 || l.minRows == 0 {
      return map[];
    }
    var rowsPerValidator := RowsPerValidator(vs, l);
    var rowIndices := ShuffleRows(totalRows, draw);
    shards := DealShards(vs, rowIndices, rowsPerValidator);
  }

  // ----- no validator is dealt a row twice, and dealing is balanced

  lemma ModDiffers(a: nat, b: nat, n: nat)
    requires a < b < a + n
    ensures a % n != b % n
  {
    if a % n == b % n {
      var p, q := a / n, b / n;
      assert a == p * n + a % n && b == q * n + b % n;
      assert (q - p) * n == b - a by {
        assert (q - p) * n == q * n - p * n;
      }
      MultipleIsFar(q - p, n);
      assert false;
    }
  }

  lemma DealtHasNoDuplicates(p: seq<nat>, offset: nat, count: nat)
    requires IsPermutation(p) && 0 < |p| && count <= |p|
    ensures NoDuplicates(Dealt(p, offset, count))
  {
    forall i, j | 0 <= i < j < count
      ensures Dealt(p, offset, count)[i] != Dealt(p, offset, count)[j]
    {
      ModDiffers(offset + i, offset + j, |p|);
    }
  }

  /** No validator is dealt the same row twice when `originalRows <= totalRows`. */
  lemma OwnRowsDiffer(vs: seq<Validator>, draw: nat -> nat, totalRows: nat, l: Layout, i: nat)
    requires Usable(TotalPower(vs), l) && i < |vs| && 0 < totalRows && l.originalRows <= totalRows
    ensures NoDuplicates(RowsOf(ShuffledRows(totalRows, draw), RowsPerValidator(vs, l), i))
  {
    ShuffledRowsIsPermutation(totalRows, draw);
    DealtHasNoDuplicates(ShuffledRows(totalRows, draw), Offset(RowsPerValidator(vs, l), i), RowsPerValidator(vs, l)[i]);
  }

  /** All rows dealt to the first `n` validators, in dealing order. */
  function AllDealt(p: seq<nat>, rows: seq<nat>, n: nat): seq<nat>
    requires |p| > 0 && n <= |rows|
  {
    if n == 0 then [] else AllDealt(p, rows, n - 1) + RowsOf(p, rows, n - 1)
  }

  lemma {:induction false} AllDealtIsOneRun(p: seq<nat>, rows: seq<nat>, n: nat)
    requires |p| > 0 && n <= |rows|
    ensures AllDealt(p, rows, n) == Dealt(p, 0, Offset(rows, n))
  {
    if n > 0 {
      AllDealtIsOneRun(p, rows, n - 1);
    }
  }

  lemma {:induction false} PermutationCount(p: seq<nat>, r: nat)
    requires NoDuplicates(p)
    ensures multiset(p)[r] == if r in p then 1 else 0
  {
    if p != [] {
      assert p == [p[0]] + p[1..];
      PermutationCount(p[1..], r);
    }
  }

  /** One full round deals every row once. */
  lemma DealtRound(p: seq<nat>, count: nat)
    requires 0 < |p| <= count
    ensures Dealt(p, 0, count) == p + Dealt(p, 0, count - |p|)
  {
    forall j | 0 <= j < count
      ensures Dealt(p, 0, count)[j] == (p + Dealt(p, 0, count - |p|))[j]
    {
      if j >= |p| {
        DivStep(j, |p|);
      } else {
        DivUnique(j, |p|, 0, j);
      }
    }
  }

  /** A partial round deals the first rows once and the others not at all. */
  lemma PartialRound(p: seq<nat>, count: nat)
    requires count < |p|
    ensures Dealt(p, 0, count) == p[..count]
  {
    forall j | 0 <= j < count ensures Dealt(p, 0, count)[j] == p[j] {
      DivUnique(j, |p|, 0, j);
    }
  }

  lemma SmallQuotients(count: nat, n: nat)
    requires count < n
    ensures count / n == 0 && (count + n - 1) / n == if count == 0 then 0 else 1
  {
    DivUnique(count, n, 0, count);
    if count == 0 {
      DivUnique(n - 1, n, 0, n - 1);
    } else {
      DivUnique(count + n - 1, n, 1, count - 1);
    }
  }

  lemma {:induction false} PartialCount(p: seq<nat>, count: nat, r: nat)
    requires IsPermutation(p) && r < |p| && count < |p|
    ensures count / |p| <= multiset(Dealt(p, 0, count))[r] <= (count + |p| - 1) / |p|
  {
    PartialRound(p, count);
    PermutationCount(p[..count], r);
    SmallQuotients(count, |p|);
  }

  lemma {:induction false} RoundCount(p: seq<nat>, count: nat, r: nat)
    requires IsPermutation(p) && r < |p| <= count
    ensures multiset(Dealt(p, 0, count))[r] == 1 + multiset(Dealt(p, 0, count - |p|))[r]
  {
    DealtRound(p, count);
    PermutationIsOnto(p, r);
    PermutationCount(p, r);
  }

  lemma {:induction false} DealtCount(p: seq<nat>, count: nat, r: nat)
    requires IsPermutation(p) && r < |p|
    ensures count / |p| <= multiset(Dealt(p, 0, count))[r] <= (count + |p| - 1) / |p|
    decreases count
  {
    if count < |p| {
      PartialCount(p, count, r);
    } else {
      RoundCount(p, count, r);
      DealtCount(p, count - |p|, r);
      DivStep(count, |p|);
      DivStep(count + |p| - 1, |p|);
    }
  }

  /** Main result: of the S rows dealt in all, every row index is dealt floor(S / totalRows) or
      ceil(S / totalRows) times. */
  lemma {:induction false} DealingIsBalanced(p: seq<nat>, rows: seq<nat>, r: nat)
    requires IsPermutation(p) && r < |p|
    ensures var dealt := Offset(rows, |rows|);
      dealt / |p| <= multiset(AllDealt(p, rows, |rows|))[r] <= (dealt + |p| - 1) / |p|
  {
    AllDealtIsOneRun(p, rows, |rows|);
    DealtCount(p, Offset(rows, |rows|), r);
  }

  // ----- runs that do not wrap are disjoint

  ghost predicate Disjoint(s: seq<nat>, t: seq<nat>) {
    forall r :: r in s ==> r !in t
  }

  lemma {:induction false} OffsetMonotone(rows: seq<nat>, i: nat, j: nat)
    requires i <= j <= |rows|
    ensures Offset(rows, i) <= Offset(rows, j)
    decreases j
  {
    if i < j {
      OffsetMonotone(rows, i, j - 1);
    }
  }

  /** Two runs that both end within the first round share no row. */
  lemma RunsDisjoint(p: seq<nat>, rows: seq<nat>, i: nat, j: nat)
    requires IsPermutation(p) && 0 < |p| && i < j < |rows|
    requires Offset(rows, i + 1) <= |p| && Offset(rows, j + 1) <= |p|
    ensures Disjoint(RowsOf(p, rows, i), RowsOf(p, rows, j))
  {
    OffsetMonotone(rows, i + 1, j);
    var a, b := RowsOf(p, rows, i), RowsOf(p, rows, j);
    forall r | r in a ensures r !in b {
      var k :| 0 <= k < |a| && a[k] == r;
      DivUnique(Offset(rows, i) + k, |p|, 0, Offset(rows, i) + k);
      forall m | 0 <= m < |b| ensures b[m] != r {
        DivUnique(Offset(rows, j) + m, |p|, 0, Offset(rows, j) + m);
      }
    }
  }

  lemma {:induction false} FindRun(rows: seq<nat>, k: nat, pos: nat) returns (i: nat)
    requires k <= |rows| && pos < Offset(rows, k)
    ensures i < k && Offset(rows, i) <= pos < Offset(rows, i + 1)
  {
    if Offset(rows, k - 1) <= pos {
      i := k - 1;
    } else {
      i := FindRun(rows, k - 1, pos);
    }
  }

  ghost predicate PrefixDisjoint(p: seq<nat>, rows: seq<nat>, k: nat)
    requires |p| > 0 && k <= |rows|
  {
    forall i, j :: 0 <= i < j < k ==> Disjoint(RowsOf(p, rows, i), RowsOf(p, rows, j))
  }

  lemma SameRow(p: seq<nat>, a: nat, b: nat, m: nat)
    requires a == 0 && b + m == |p| > 0
    ensures p[(a + 0) % |p|] == p[(b + m) % |p|]
  {
    DivUnique(|p|, |p|, 1, 0);
    DivUnique(0, |p|, 0, 0);
  }

  /** Beyond one round, the runs holding the first position of each round share a row. */
  lemma {:induction false} OverflowShares(p: seq<nat>, rows: seq<nat>, k: nat)
    requires k <= |rows| && 0 < |p| < Offset(rows, k)
    requires forall i :: 0 <= i < |rows| ==> rows[i] <= |p|
    ensures !PrefixDisjoint(p, rows, k)
  {
    var i := FindRun(rows, k, 0);
    var j := FindRun(rows, k, |p|);
    if j < i {
      OffsetMonotone(rows, j + 1, i);
    }
    var a, b := RowsOf(p, rows, i), RowsOf(p, rows, j);
    var m := |p| - Offset(rows, j);
    assert i < j;
    SameRow(p, Offset(rows, i), Offset(rows, j), m);
    assert a[0] in a && b[m] in b;
    assert !Disjoint(a, b);
  }

  /** Exactly when: the first `k` runs are pairwise disjoint if and only if together they do not
      exceed one round. */
  lemma {:induction false} PrefixDisjointIff(p: seq<nat>, rows: seq<nat>, k: nat)
    requires IsPermutation(p) && 0 < |p| && k <= |rows|
    requires forall i :: 0 <= i < |rows| ==> rows[i] <= |p|
    ensures PrefixDisjoint(p, rows, k) <==> Offset(rows, k) <= |p|
  {
    if Offset(rows, k) <= |p| {
      forall i, j | 0 <= i < j < k ensures Disjoint(RowsOf(p, rows, i), RowsOf(p, rows, j)) {
        OffsetMonotone(rows, i + 1, k);
        OffsetMonotone(rows, j + 1, k);
        RunsDisjoint(p, rows, i, j);
      }
    } else {
      OverflowShares(p, rows, k);
    }
  }

  // ----- checking a received shard against the assignment

  datatype Verdict = Accepted | NotInShardMap | WrongCount | NotAssigned(row: nat) | Duplicate(row: nat)

  /** The source narrows every assigned index to 32 bits. */
  function Narrowed(rows: seq<nat>): (t: seq<nat>)
    ensures |t| == |rows|
  {
    seq(|rows|, i requires 0 <= i < |rows| => rows[i] % 0x1_0000_0000)
  }

  /** Narrowing changes nothing if and only if every index has at most 32 bits. */
  lemma NarrowedExactly(rows: seq<nat>)
    ensures Narrowed(rows) == rows <==> forall i :: 0 <= i < |rows| ==> rows[i] < 0x1_0000_0000
  {
    if Narrowed(rows) == rows {
      forall i | 0 <= i < |rows| ensures rows[i] < 0x1_0000_0000 {
        assert rows[i] == Narrowed(rows)[i];
      }
    }
  }

  /** So for up to 2^32 rows `Verify` compares with the rows that were dealt. */
  lemma {:induction false} DealtRowsAreNarrow(totalRows: nat, draw: nat -> nat, rows: seq<nat>, i: nat)
    requires 0 < totalRows <= 0x1_0000_0000 && i < |rows|
    ensures var dealt := RowsOf(ShuffledRows(totalRows, draw), rows, i); Narrowed(dealt) == dealt
  {
    ShuffledRowsIsPermutation(totalRows, draw);
    NarrowedExactly(RowsOf(ShuffledRows(totalRows, draw), rows, i));
  }

  method Verify(shards: map<Validator, seq<nat>>, val: Validator, rowIndices: seq<nat>) returns (v: Verdict)
    ensures v.NotInShardMap? <==> val !in shards
    ensures v.WrongCount? <==> val in shards && |rowIndices| != |shards[val]|
    ensures v.NotAssigned? ==> v.row in rowIndices && v.row !in Narrowed(shards[val])
    ensures v.Duplicate? ==> v.row in rowIndices && !NoDuplicates(rowIndices)
    ensures v.Accepted? <==>
      && val in shards
      && NoDuplicates(rowIndices)
      && multiset(rowIndices) == multiset(Narrowed(shards[val]))
  {
    if val !in shards {
      return NotInShardMap;
    }
    var rows := Narrowed(shards[val]);
    PermutationIff(rowIndices, rows);
    if |rowIndices| != |rows| {
      return WrongCount;
    }
    var marks := map r | r in rows :: false;
    for i := 0 to |rowIndices|
      invariant marks.Keys == SetOf(rows)
      invariant forall r :: r in marks ==> (marks[r] <==> r in rowIndices[..i])
      invariant NoDuplicates(rowIndices[..i]) && SetOf(rowIndices[..i]) <= SetOf(rows)
    {
      var rowIdx := rowIndices[i];
      assert rowIndices[..i + 1] == rowIndices[..i] + [rowIdx];
      if rowIdx !in marks {
        assert rowIdx in SetOf(rowIndices);
        return NotAssigned(rowIdx);
      }
      if marks[rowIdx] {
        return Duplicate(rowIdx);
      }
      marks := marks[rowIdx := true];
    }
    assert rowIndices[..|rowIndices|] == rowIndices;
    return Accepted;
  }

  /** Distinct indices are a permutation of `rows` if and only if they are as many as `rows` and all
      among `rows`. */
  lemma PermutationIff(indices: seq<nat>, rows: seq<nat>)
    ensures NoDuplicates(indices) && multiset(indices) == multiset(rows)
       <==> NoDuplicates(indices) && |indices| == |rows| && SetOf(indices) <= SetOf(rows)
  {
    if NoDuplicates(indices) && |indices| == |rows| && SetOf(indices) <= SetOf(rows) {
      SetOfSize(indices);
      SetOfSize(rows);
      SubsetSize(SetOf(indices), SetOf(rows));
      forall r: nat ensures multiset(indices)[r] == multiset(rows)[r] {
        PermutationCount(indices, r);
        PermutationCount(rows, r);
        assert r in indices <==> r in SetOf(indices);
        assert r in rows <==> r in SetOf(rows);
      }
    }
    if multiset(indices) == multiset(rows) {
      assert |indices| == |multiset(indices)| == |rows|;
      forall r | r in SetOf(indices) ensures r in SetOf(rows) {
        assert r in multiset(indices);
      }
    }
  }
}
