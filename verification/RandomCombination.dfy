/** Random linear combinations and Reed-Solomon extension of rows
    (pkg/rsema1d/rlc/compute.go, pkg/rsema1d/coder.go).

    A row is a sequence of GF(2^16) symbols.  Addition and multiplication of symbols are arbitrary
    functions subject to `FieldLaws`.  A GF(2^128) value is a vector of eight symbols. */
module RandomCombination {
  newtype Symbol = x: int | 0 <= x < 0x1_0000

  type Row = seq<Symbol>

  const WIDTH: nat := 8

  type GF128 = g: Row | |g| == 8 witness [0, 0, 0, 0, 0, 0, 0, 0]

  datatype Field = Field(add: (Symbol, Symbol) -> Symbol, mul: (Symbol, Symbol) -> Symbol)

  ghost predicate FieldLaws(fd: Field) {
    && (forall a :: fd.add(a, 0) == a)
    && (forall a, b :: fd.add(a, b) == fd.add(b, a))
    && (forall a, b, c :: fd.add(fd.add(a, b), c) == fd.add(a, fd.add(b, c)))
    && (forall a :: fd.mul(0, a) == 0 && fd.mul(a, 0) == 0)
    && (forall a, b, c :: fd.mul(fd.add(a, b), c) == fd.add(fd.mul(a, c), fd.mul(b, c)))
    && (forall a, b, c :: fd.mul(a, fd.add(b, c)) == fd.add(fd.mul(a, b), fd.mul(a, c)))
    && (forall a, b, c :: fd.mul(fd.mul(a, b), c) == fd.mul(a, fd.mul(b, c)))
  }

  /** The consequences of `FieldLaws` that linearity rests on. */
  ghost predicate LinearLaws(fd: Field) {
    && (forall a :: fd.add(a, 0) == a)
    && (forall a, b, c, d :: fd.add(fd.add(a, b), fd.add(c, d)) == fd.add(fd.add(a, c), fd.add(b, d)))
    && (forall a :: fd.mul(0, a) == 0 && fd.mul(a, 0) == 0)
    && (forall a, b, c :: fd.mul(fd.add(a, b), c) == fd.add(fd.mul(a, c), fd.mul(b, c)))
    && (forall a, b, c :: fd.mul(a, fd.add(b, c)) == fd.add(fd.mul(a, b), fd.mul(a, c)))
    && (forall a, b, c :: fd.mul(fd.mul(a, b), c) == fd.mul(a, fd.mul(b, c)))
  }

  function Zero(n: nat): Row {
    seq(n, _ => 0)
  }

  function Add(fd: Field, a: Row, b: Row): (r: Row)
    requires |a| == |b|
    ensures |r| == |a|
  {
    seq(|a|, i requires 0 <= i < |a| => fd.add(a[i], b[i]))
  }

  function Scale(fd: Field, s: Symbol, a: Row): (r: Row)
    ensures |r| == |a|
  {
    seq(|a|, i requires 0 <= i < |a| => fd.mul(s, a[i]))
  }

  /** The combination of a row's symbols with the coefficients, one per symbol. */
  function Combine(fd: Field, row: Row, coeffs: seq<GF128>): GF128
    requires |coeffs| == |row|
  {
    if row == [] then
      Zero(WIDTH)
    else
      var n := |row| - 1;
      Add(fd, Combine(fd, row[..n], coeffs[..n]), Scale(fd, row[n], coeffs[n]))
  }

  /** The linear combination of equally long vectors, one weight per vector. */
  function Mix(fd: Field, weights: seq<Symbol>, rows: seq<Row>, len: nat): (r: Row)
    requires |weights| == |rows| && forall i :: 0 <= i < |rows| ==> |rows[i]| == len
    ensures |r| == len
  {
    if rows == [] then
      Zero(len)
    else
      var n := |rows| - 1;
      Add(fd, Mix(fd, weights[..n], rows[..n], len), Scale(fd, weights[n], rows[n]))
  }

  predicate Rectangular(rows: seq<Row>, len: nat) {
    forall i :: 0 <= i < |rows| ==> |rows[i]| == len
  }

  /** Systematic extension: the originals, followed by one mix of them per matrix row. */
  function Extend(fd: Field, matrix: seq<seq<Symbol>>, rows: seq<Row>, len: nat): (r: seq<Row>)
    requires Rectangular(rows, len) && forall i :: 0 <= i < |matrix| ==> |matrix[i]| == |rows|
    ensures |r| == |rows| + |matrix| && Rectangular(r, len)
  {
    rows + seq(|matrix|, i requires 0 <= i < |matrix| => Mix(fd, matrix[i], rows, len))
  }

  function Combined(fd: Field, rows: seq<Row>, coeffs: seq<GF128>): (r: seq<GF128>)
    requires Rectangular(rows, |coeffs|)
    ensures |r| == |rows|
  {
    seq(|rows|, i requires 0 <= i < |rows| => Combine(fd, rows[i], coeffs))
  }

  // ----- linearity

  lemma Exchange(fd: Field, a: Symbol, b: Symbol, c: Symbol, d: Symbol)
    requires FieldLaws(fd)
    ensures fd.add(fd.add(a, b), fd.add(c, d)) == fd.add(fd.add(a, c), fd.add(b, d))
  {
    assert fd.add(fd.add(a, b), fd.add(c, d)) == fd.add(a, fd.add(b, fd.add(c, d)));
    assert fd.add(b, fd.add(c, d)) == fd.add(fd.add(c, b), d) == fd.add(c, fd.add(b, d));
  }

  lemma FieldIsLinear(fd: Field)
    requires FieldLaws(fd)
    ensures LinearLaws(fd)
  {
    forall a, b, c, d ensures fd.add(fd.add(a, b), fd.add(c, d)) == fd.add(fd.add(a, c), fd.add(b, d)) {
      Exchange(fd, a, b, c, d);
    }
  }

  lemma AddExchanges(fd: Field, a: Row, b: Row, c: Row, d: Row)
    requires LinearLaws(fd) && |a| == |b| == |c| == |d|
    ensures Add(fd, Add(fd, a, b), Add(fd, c, d)) == Add(fd, Add(fd, a, c), Add(fd, b, d))
  {
  }

  lemma AddZero(fd: Field, a: Row)
    requires LinearLaws(fd)
    ensures Add(fd, a, Zero(|a|)) == a
  {
  }

  lemma ScaleAdds(fd: Field, s: Symbol, t: Symbol, a: Row)
    requires LinearLaws(fd)
    ensures Scale(fd, fd.add(s, t), a) == Add(fd, Scale(fd, s, a), Scale(fd, t, a))
    ensures Scale(fd, fd.mul(s, t), a) == Scale(fd, s, Scale(fd, t, a))
  {
  }

  lemma ScaleDistributes(fd: Field, s: Symbol, a: Row, b: Row)
    requires LinearLaws(fd) && |a| == |b|
    ensures Scale(fd, s, Add(fd, a, b)) == Add(fd, Scale(fd, s, a), Scale(fd, s, b))
  {
  }

  lemma ScaleZero(fd: Field, s: Symbol, a: Row)
    requires LinearLaws(fd)
    ensures Scale(fd, 0, a) == Zero(|a|) && Scale(fd, s, Zero(|a|)) == Zero(|a|)
  {
  }

  lemma {:induction false} CombineAdds(fd: Field, a: Row, b: Row, coeffs: seq<GF128>)
    requires LinearLaws(fd) && |a| == |b| == |coeffs|
    ensures Combine(fd, Add(fd, a, b), coeffs) == Add(fd, Combine(fd, a, coeffs), Combine(fd, b, coeffs))
  {
    if a == [] {
      AddZero(fd, Zero(WIDTH));
    } else {
      var n := |a| - 1;
      assert Add(fd, a, b)[..n] == Add(fd, a[..n], b[..n]);
      CombineAdds(fd, a[..n], b[..n], coeffs[..n]);
      ScaleAdds(fd, a[n], b[n], coeffs[n]);
      AddExchanges(fd, Combine(fd, a[..n], coeffs[..n]), Combine(fd, b[..n], coeffs[..n]),
        Scale(fd, a[n], coeffs[n]), Scale(fd, b[n], coeffs[n]));
    }
  }

  lemma {:induction false} CombineScales(fd: Field, s: Symbol, a: Row, coeffs: seq<GF128>)
    requires LinearLaws(fd) && |a| == |coeffs|
    ensures Combine(fd, Scale(fd, s, a), coeffs) == Scale(fd, s, Combine(fd, a, coeffs))
  {
    if a == [] {
      ScaleZero(fd, s, Zero(WIDTH));
    } else {
      var n := |a| - 1;
      assert Scale(fd, s, a)[..n] == Scale(fd, s, a[..n]);
      CombineScales(fd, s, a[..n], coeffs[..n]);
      ScaleAdds(fd, s, a[n], coeffs[n]);
      ScaleDistributes(fd, s, Combine(fd, a[..n], coeffs[..n]), Scale(fd, a[n], coeffs[n]));
    }
  }

  lemma {:induction false} CombineZero(fd: Field, len: nat, coeffs: seq<GF128>)
    requires LinearLaws(fd) && |coeffs| == len
    ensures Combine(fd, Zero(len), coeffs) == Zero(WIDTH)
  {
    if len > 0 {
      assert Zero(len)[..len - 1] == Zero(len - 1);
      CombineZero(fd, len - 1, coeffs[..len - 1]);
      ScaleZero(fd, 0, coeffs[len - 1]);
      AddZero(fd, Zero(WIDTH));
    }
  }

  /** Main result: combining a mix of rows gives the same mix of the rows' combinations. */
  lemma {:induction false} CombineCommutesWithMix(fd: Field, weights: seq<Symbol>, rows: seq<Row>, coeffs: seq<GF128>)
    requires LinearLaws(fd) && |weights| == |rows| && Rectangular(rows, |coeffs|)
    ensures Combine(fd, Mix(fd, weights, rows, |coeffs|), coeffs) == Mix(fd, weights, Combined(fd, rows, coeffs), WIDTH)
  {
    if rows == [] {
      CombineZero(fd, |coeffs|, coeffs);
    } else {
      var n := |rows| - 1;
      var front, last := Mix(fd, weights[..n], rows[..n], |coeffs|), Scale(fd, weights[n], rows[n]);
      var combined: seq<Row> := Combined(fd, rows, coeffs);
      CombineCommutesWithMix(fd, weights[..n], rows[..n], coeffs);
      CombineAdds(fd, front, last, coeffs);
      CombineScales(fd, weights[n], rows[n], coeffs);
      MixStep(fd, weights, rows, |coeffs|);
      MixStep(fd, weights, combined, WIDTH);
      assert combined[..n] == Combined(fd, rows[..n], coeffs);
    }
  }

  lemma MixStep(fd: Field, weights: seq<Symbol>, rows: seq<Row>, len: nat)
    requires |weights| == |rows| > 0 && Rectangular(rows, len)
    ensures var n := |rows| - 1;
      Mix(fd, weights, rows, len) == Add(fd, Mix(fd, weights[..n], rows[..n], len), Scale(fd, weights[n], rows[n]))
  {
  }

  lemma OriginalCombines(fd: Field, matrix: seq<seq<Symbol>>, rows: seq<Row>, coeffs: seq<GF128>, i: nat)
    requires Rectangular(rows, |coeffs|) && i < |rows|
    requires forall r :: 0 <= r < |matrix| ==> |matrix[r]| == |rows|
    ensures Combine(fd, Extend(fd, matrix, rows, |coeffs|)[i], coeffs)
         == Extend(fd, matrix, Combined(fd, rows, coeffs), WIDTH)[i]
  {
  }

  lemma {:induction false} ParityCombines(fd: Field, matrix: seq<seq<Symbol>>, rows: seq<Row>, coeffs: seq<GF128>, j: nat)
    requires LinearLaws(fd) && Rectangular(rows, |coeffs|) && j < |matrix|
    requires forall r :: 0 <= r < |matrix| ==> |matrix[r]| == |rows|
    ensures Combine(fd, Extend(fd, matrix, rows, |coeffs|)[|rows| + j], coeffs)
         == Extend(fd, matrix, Combined(fd, rows, coeffs), WIDTH)[|rows| + j]
  {
    CombineCommutesWithMix(fd, matrix[j], rows, coeffs);
  }

  /** Main result: the combination of any extended row, original or parity, is the matching entry of the
      extension of the originals' combinations. */
  lemma {:induction false} CombineCommutesWithExtend(fd: Field, matrix: seq<seq<Symbol>>, rows: seq<Row>, coeffs: seq<GF128>, i: nat)
    requires FieldLaws(fd) && Rectangular(rows, |coeffs|)
    requires forall r :: 0 <= r < |matrix| ==> |matrix[r]| == |rows|
    requires i < |rows| + |matrix|
    ensures Combine(fd, Extend(fd, matrix, rows, |coeffs|)[i], coeffs)
         == Extend(fd, matrix, Combined(fd, rows, coeffs), WIDTH)[i]
  {
    if i < |rows| {
      OriginalCombines(fd, matrix, rows, coeffs, i);
    } else {
      FieldIsLinear(fd);
      ParityCombines(fd, matrix, rows, coeffs, i - |rows|);
    }
  }
}
