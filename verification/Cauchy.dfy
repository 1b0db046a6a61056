/** The coefficients of the parity equations and why any square choice of them is solvable. */
module Cauchy {
  import opened Bytes
  import opened Gf256
  import opened Elimination

  const MAX_GENERATION := 128
  const MAX_PARITY := 16

  function Coefficient(row: nat, col: nat): byte
    requires row < MAX_PARITY && col < MAX_GENERATION
  {
    Mul(Xor(col, 128), Inv(Xor(col, 128 + row)))
  }

  // sum of v[c] / (x + ys[c])
  function CauchySum(x: byte, ys: Vector, v: Vector): byte
    requires |ys| == |v|
  {
    if |v| == 0 then 0 else
      var n := |v| - 1;
      Xor(CauchySum(x, ys[..n], v[..n]), Mul(v[n], Inv(Xor(x, ys[n]))))
  }

  function Total(v: Vector): byte {
    if |v| == 0 then 0 else Xor(Total(v[..|v| - 1]), v[|v| - 1])
  }

  ghost predicate Distinct(s: seq<int>) {
    forall i, j | 0 <= i < j < |s| :: s[i] != s[j]
  }

  ghost predicate Disjoint(x: byte, ys: Vector) {
    forall c | 0 <= c < |ys| :: x != ys[c]
  }

  // v[c] * (y + ys[c])
  function Shifted(y: byte, ys: Vector, v: Vector): (w: Vector)
    requires |ys| == |v|
    ensures |w| == |v|
  {
    seq(|v|, c requires 0 <= c < |v| => Mul(v[c], Xor(y, ys[c])))
  }

  // v[c] / (x + ys[c])
  function Divided(x: byte, ys: Vector, v: Vector): (w: Vector)
    requires |ys| == |v|
    ensures |w| == |v|
  {
    seq(|v|, c requires 0 <= c < |v| => Mul(v[c], Inv(Xor(x, ys[c]))))
  }

  // (x + y) v / (x + z) = v + v (y + z) / (x + z)
  lemma TermShift(x: byte, y: byte, z: byte, v: byte)
    requires x != z
    ensures Mul(Xor(x, y), Mul(v, Inv(Xor(x, z)))) == Xor(v, Mul(Mul(v, Xor(y, z)), Inv(Xor(x, z))))
  {
    hide *;
    var d := Xor(x, z);
    XorCancel(x, z);
    InverseLaw(d);
    assert Xor(x, y) == Xor(d, Xor(y, z)) by {
      XorSwap(x, z, y, z);
      XorUnit(z);
      XorUnit(Xor(x, y));
    }
    MulXorLeft(d, Xor(y, z), Mul(v, Inv(d)));
    MulSwap(d, v, Inv(d));
    MulOne(v);
    MulSwap(Xor(y, z), v, Inv(d));
    MulAssoc(v, Xor(y, z), Inv(d));
  }

  // v / (x + z) + v / (x' + z) = (x + x') (v / (x' + z)) / (x + z)
  lemma TermDifference(x: byte, x': byte, z: byte, v: byte)
    requires x != z && x' != z
    ensures Xor(Mul(v, Inv(Xor(x, z))), Mul(v, Inv(Xor(x', z))))
         == Mul(Xor(x, x'), Mul(Mul(v, Inv(Xor(x', z))), Inv(Xor(x, z))))
  {
    hide *;
    var d, d' := Xor(x, z), Xor(x', z);
    var q := Mul(v, Inv(d'));
    XorCancel(x', z);
    InverseLaw(d');
    TermShift(x, x', z, q);
    MulAssoc(v, Inv(d'), d');
    MulComm(Inv(d'), d');
    MulOne(v);
    XorComm(q, Mul(v, Inv(d)));
  }

  lemma {:induction false} SumShift(x: byte, y: byte, ys: Vector, v: Vector)
    requires |ys| == |v| && Disjoint(x, ys)
    ensures Mul(Xor(x, y), CauchySum(x, ys, v)) == Xor(Total(v), CauchySum(x, ys, Shifted(y, ys, v)))
  {
    hide Mul, Xor, Inv;
    if |v| == 0 {
      MulZero(Xor(x, y));
      XorUnit(0);
    } else {
      var n := |v| - 1;
      var w := Shifted(y, ys, v);
      assert w[..n] == Shifted(y, ys[..n], v[..n]);
      SumShift(x, y, ys[..n], v[..n]);
      MulXorRight(Xor(x, y), CauchySum(x, ys[..n], v[..n]), Mul(v[n], Inv(Xor(x, ys[n]))));
      TermShift(x, y, ys[n], v[n]);
      XorSwap(Total(v[..n]), CauchySum(x, ys[..n], w[..n]), v[n], Mul(w[n], Inv(Xor(x, ys[n]))));
    }
  }

  lemma {:induction false} SumDifference(x: byte, x': byte, ys: Vector, v: Vector)
    requires |ys| == |v| && Disjoint(x, ys) && Disjoint(x', ys)
    ensures Xor(CauchySum(x, ys, v), CauchySum(x', ys, v)) == Mul(Xor(x, x'), CauchySum(x, ys, Divided(x', ys, v)))
  {
    hide Mul, Xor, Inv;
    if |v| == 0 {
      MulZero(Xor(x, x'));
      XorUnit(0);
    } else {
      var n := |v| - 1;
      var u := Divided(x', ys, v);
      assert u[..n] == Divided(x', ys[..n], v[..n]);
      SumDifference(x, x', ys[..n], v[..n]);
      TermDifference(x, x', ys[n], v[n]);
      XorSwap(CauchySum(x, ys[..n], v[..n]), Mul(v[n], Inv(Xor(x, ys[n]))),
              CauchySum(x', ys[..n], v[..n]), Mul(v[n], Inv(Xor(x', ys[n]))));
      MulXorRight(Xor(x, x'), CauchySum(x, ys[..n], u[..n]), Mul(u[n], Inv(Xor(x, ys[n]))));
    }
  }

  // One row of the system, rewritten without its last column.
  lemma RowWithoutLast(x: byte, ys: Vector, v: Vector)
    requires |ys| == |v| > 0 && Disjoint(x, ys) && CauchySum(x, ys, v) == 0
    ensures var n := |v| - 1; CauchySum(x, ys[..n], Shifted(ys[n], ys[..n], v[..n])) == Total(v)
  {
    hide Mul, Xor, Inv, CauchySum, Total;
    var n := |v| - 1;
    SumShift(x, ys[n], ys, v);
    MulZero(Xor(x, ys[n]));
    var w := Shifted(ys[n], ys, v);
    assert w[..n] == Shifted(ys[n], ys[..n], v[..n]);
    XorUnit(ys[n]);
    MulZero(v[n]);
    MulZero(Inv(Xor(x, ys[n])));
    SumLast(x, ys, w);
    XorUnit(CauchySum(x, ys[..n], w[..n]));
    XorCancel(Total(v), CauchySum(x, ys, w));
  }

  lemma SumLast(x: byte, ys: Vector, v: Vector)
    requires |ys| == |v| > 0
    ensures var n := |v| - 1;
            CauchySum(x, ys, v) == Xor(CauchySum(x, ys[..n], v[..n]), Mul(v[n], Inv(Xor(x, ys[n]))))
  {
    hide Mul, Xor, Inv;
  }

  lemma {:induction false} SumOfZeros(x: byte, ys: Vector)
    ensures CauchySum(x, ys, Zeros(|ys|)) == 0
  {
    hide Mul, Xor, Inv;
    if |ys| > 0 {
      var n := |ys| - 1;
      assert Zeros(|ys|)[..n] == Zeros(n);
      SumOfZeros(x, ys[..n]);
      MulZero(Inv(Xor(x, ys[n])));
      XorUnit(0);
    }
  }

  // A square Cauchy matrix has a trivial kernel.
  lemma {:induction false} CauchyKernel(xs: Vector, ys: Vector, v: Vector)
    requires |xs| == |ys| == |v| && Distinct(xs) && Distinct(ys)
    requires forall r | 0 <= r < |xs| :: Disjoint(xs[r], ys) && CauchySum(xs[r], ys, v) == 0
    ensures v == Zeros(|v|)
    decreases |v|
  {
    hide Mul, Xor, Inv, CauchySum, Total;
    if |v| > 0 {
      var n := |v| - 1;
      var last := xs[n];
      var w := Shifted(ys[n], ys[..n], v[..n]);
      var u := Divided(last, ys[..n], w);
      RowWithoutLast(last, ys, v);
      forall r | 0 <= r < n ensures CauchySum(xs[..n][r], ys[..n], u) == 0 {
        RowWithoutLast(xs[r], ys, v);
        SumDifference(xs[r], last, ys[..n], w);
        XorCancel(CauchySum(xs[r], ys[..n], w), CauchySum(last, ys[..n], w));
        XorCancel(xs[r], last);
        NoZeroDivisors(Xor(xs[r], last), CauchySum(xs[r], ys[..n], u));
      }
      CauchyKernel(xs[..n], ys[..n], u);
      forall c | 0 <= c < n ensures v[c] == 0 {
        assert u[c] == 0;
        UndoDivisions(v[c], last, ys[c], ys[n]);
      }
      assert v[..n] == Zeros(n);
      SumOfZeros(last, ys[..n]);
      SumLast(last, ys, v);
      XorUnit(Mul(v[n], Inv(Xor(last, ys[n]))));
      XorCancel(last, ys[n]);
      InvNonzero(Xor(last, ys[n]));
      NoZeroDivisors(v[n], Inv(Xor(last, ys[n])));
    }
  }

  lemma UndoDivisions(v: byte, x: byte, y: byte, z: byte)
    requires x != y && y != z
    requires Mul(Mul(v, Xor(z, y)), Inv(Xor(x, y))) == 0
    ensures v == 0
  {
    hide *;
    XorCancel(x, y);
    XorCancel(z, y);
    InvNonzero(Xor(x, y));
    NoZeroDivisors(Mul(v, Xor(z, y)), Inv(Xor(x, y)));
    NoZeroDivisors(v, Xor(z, y));
  }

  // ---- square submatrices of the coefficient matrix ----

  ghost predicate Rows(rows: seq<nat>) {
    Distinct(rows) && forall r | 0 <= r < |rows| :: rows[r] < MAX_PARITY
  }

  ghost predicate Columns(cols: seq<nat>) {
    Distinct(cols) && forall c | 0 <= c < |cols| :: cols[c] < MAX_GENERATION
  }

  function CoefficientRow(row: nat, cols: seq<nat>): (v: Vector)
    requires row < MAX_PARITY && forall c | 0 <= c < |cols| :: cols[c] < MAX_GENERATION
    ensures |v| == |cols|
  {
    seq(|cols|, c requires 0 <= c < |cols| => Coefficient(row, cols[c]))
  }

  function Submatrix(rows: seq<nat>, cols: seq<nat>): (m: Matrix)
    requires forall r | 0 <= r < |rows| :: rows[r] < MAX_PARITY
    requires forall c | 0 <= c < |cols| :: cols[c] < MAX_GENERATION
    ensures |m| == |rows| && forall r | 0 <= r < |m| :: |m[r]| == |cols|
  {
    seq(|rows|, r requires 0 <= r < |rows| => CoefficientRow(rows[r], cols))
  }

  // The numerators of a combination of coefficient columns.
  function Numerators(cols: seq<nat>, z: Vector): (v: Vector)
    requires |cols| == |z| && forall c | 0 <= c < |cols| :: cols[c] < MAX_GENERATION
    ensures |v| == |z|
  {
    seq(|z|, c requires 0 <= c < |z| => Mul(z[c], Xor(cols[c], 128)))
  }

  lemma TermIsCauchy(row: nat, col: nat, z: byte)
    requires row < MAX_PARITY && col < MAX_GENERATION
    ensures Mul(Coefficient(row, col), z) == Mul(Mul(z, Xor(col, 128)), Inv(Xor(128 + row, col)))
  {
    hide Mul, Xor, Inv;
    XorComm(col, 128 + row);
    MulComm(Coefficient(row, col), z);
    MulAssoc(z, Xor(col, 128), Inv(Xor(col, 128 + row)));
  }

  lemma {:induction false} RowIsCauchy(row: nat, cols: seq<nat>, z: Vector)
    requires row < MAX_PARITY && |cols| == |z| && forall c | 0 <= c < |cols| :: cols[c] < MAX_GENERATION
    ensures Dot(CoefficientRow(row, cols), z) == CauchySum(128 + row, cols, Numerators(cols, z))
  {
    hide Mul, Xor, Inv, Coefficient;
    if |z| > 0 {
      var n := |z| - 1;
      var a, v := CoefficientRow(row, cols), Numerators(cols, z);
      RowIsCauchy(row, cols[..n], z[..n]);
      assert v[..n] == Numerators(cols[..n], z[..n]);
      assert a == CoefficientRow(row, cols[..n]) + [a[n]] && z == z[..n] + [z[n]];
      DotConcat(CoefficientRow(row, cols[..n]), [a[n]], z[..n], [z[n]]);
      XorUnit(Mul(a[n], z[n]));
      TermIsCauchy(row, cols[n], z[n]);
    }
  }

  // Any square choice of distinct rows and columns is nonsingular.
  lemma SubmatrixKernel(rows: seq<nat>, cols: seq<nat>, z: Vector)
    requires Rows(rows) && Columns(cols) && |rows| == |cols| == |z|
    requires forall r | 0 <= r < |rows| :: Dot(CoefficientRow(rows[r], cols), z) == 0
    ensures z == Zeros(|z|)
  {
    hide Mul, Xor, Inv, Coefficient, Dot, CoefficientRow, CauchySum;
    var xs: Vector := seq(|rows|, r requires 0 <= r < |rows| => 128 + rows[r]);
    var v := Numerators(cols, z);
    forall r | 0 <= r < |xs| ensures Disjoint(xs[r], cols) && CauchySum(xs[r], cols, v) == 0 {
      RowIsCauchy(rows[r], cols, z);
    }
    CauchyKernel(xs, cols, v);
    forall c | 0 <= c < |z| ensures z[c] == 0 {
      assert v[c] == 0;
      XorCancel(cols[c], 128);
      NoZeroDivisors(z[c], Xor(cols[c], 128));
    }
  }

  lemma SubmatrixNonsingular(rows: seq<nat>, cols: seq<nat>, rhs: Matrix, width: nat)
    requires Rows(rows) && Columns(cols) && |rows| == |cols| == |rhs| && Rectangular(rhs, width)
    ensures Rectangular(Augmented(Submatrix(rows, cols), rhs), |rows| + width)
    ensures Nonsingular(Augmented(Submatrix(rows, cols), rhs), |rows| + width)
  {
    hide Mul, Xor, Inv, Dot, CoefficientRow, Zeros;
    var n := |rows|;
    var m := Submatrix(rows, cols);
    var a := Augmented(m, rhs);
    forall z: Vector | |z| == n && InKernel(a, z + Zeros(width)) ensures z == Zeros(n) {
      forall r | 0 <= r < n ensures Dot(CoefficientRow(rows[r], cols), z) == 0 {
        assert a[r] == m[r] + rhs[r] && m[r] == CoefficientRow(rows[r], cols);
        DotConcat(m[r], rhs[r], z, Zeros(width));
        DotZeros(rhs[r]);
        XorUnit(Dot(m[r], z));
      }
      SubmatrixKernel(rows, cols, z);
    }
  }

  // ---- solutions of the parity equations ----

  function Column(blocks: Matrix, j: nat): (v: Vector)
    requires forall c | 0 <= c < |blocks| :: j < |blocks[c]|
    ensures |v| == |blocks|
  {
    seq(|blocks|, c requires 0 <= c < |blocks| => blocks[c][j])
  }

  // The blocks satisfy every equation of the system, byte position by byte position.
  ghost predicate Solves(m: Matrix, rhs: Matrix, blocks: Matrix, n: nat, width: nat)
    requires Shaped(m, rhs, n, width) && |blocks| == n && Rectangular(blocks, width)
  {
    forall r, j | 0 <= r < n && 0 <= j < width :: Dot(m[r], Column(blocks, j)) == rhs[r][j]
  }

  lemma RowEquation(row: Vector, right: Vector, x: Vector, j: nat)
    requires |row| == |x| && j < |right|
    ensures Dot(row + right, x + Unit(|right|, j)) == 0 <==> Dot(row, x) == right[j]
  {
    hide Dot, Xor, Mul, Unit;
    DotConcat(row, right, x, Unit(|right|, j));
    DotUnit(right, j);
    XorCancel(Dot(row, x), right[j]);
  }

  lemma SolvesIsKernel(m: Matrix, rhs: Matrix, blocks: Matrix, n: nat, width: nat)
    requires Shaped(m, rhs, n, width) && |blocks| == n && Rectangular(blocks, width)
    ensures Rectangular(Augmented(m, rhs), n + width)
    ensures Solves(m, rhs, blocks, n, width) <==>
            forall j | 0 <= j < width :: InKernel(Augmented(m, rhs), Column(blocks, j) + Unit(width, j))
  {
    hide Dot, Column, Unit;
    var a := Augmented(m, rhs);
    forall r, j | 0 <= r < n && 0 <= j < width
      ensures Dot(a[r], Column(blocks, j) + Unit(width, j)) == 0 <==> Dot(m[r], Column(blocks, j)) == rhs[r][j]
    {
      RowEquation(m[r], rhs[r], Column(blocks, j), j);
    }
  }

  // Systems with the same kernel have the same solutions.
  lemma SameSolutions(m: Matrix, rhs: Matrix, m': Matrix, rhs': Matrix, blocks: Matrix, n: nat, width: nat)
    requires Shaped(m, rhs, n, width) && Shaped(m', rhs', n, width) && |blocks| == n && Rectangular(blocks, width)
    requires Rectangular(Augmented(m, rhs), n + width) && Rectangular(Augmented(m', rhs'), n + width)
    requires SameKernel(Augmented(m, rhs), Augmented(m', rhs'), n + width)
    ensures Solves(m, rhs, blocks, n, width) <==> Solves(m', rhs', blocks, n, width)
  {
    hide Solves, InKernel, Column, Unit, Augmented;
    SolvesIsKernel(m, rhs, blocks, n, width);
    SolvesIsKernel(m', rhs', blocks, n, width);
  }

  lemma IdentitySolves(m: Matrix, rhs: Matrix, blocks: Matrix, n: nat, width: nat)
    requires Shaped(m, rhs, n, width) && |blocks| == n && Rectangular(blocks, width)
    requires forall r | 0 <= r < n :: m[r] == Unit(n, r)
    ensures Solves(m, rhs, blocks, n, width) <==> blocks == rhs
  {
    hide Dot, Unit;
    forall r, j | 0 <= r < n && 0 <= j < width
      ensures Dot(m[r], Column(blocks, j)) == blocks[r][j]
    {
      DotSymmetric(m[r], Column(blocks, j));
      DotUnit(Column(blocks, j), r);
    }
    if Solves(m, rhs, blocks, n, width) {
      forall r | 0 <= r < n ensures blocks[r] == rhs[r] {
        forall j | 0 <= j < width ensures blocks[r][j] == rhs[r][j] {
          assert Dot(m[r], Column(blocks, j)) == rhs[r][j];
        }
      }
    }
  }

  lemma ReducedIsIdentity(m: Matrix, rhs: Matrix, n: nat, width: nat)
    requires Shaped(m, rhs, n, width) && Rectangular(Augmented(m, rhs), n + width)
    requires Reduced(Augmented(m, rhs), n, n + width)
    ensures forall r | 0 <= r < n :: m[r] == Unit(n, r)
  {
    forall r | 0 <= r < n ensures m[r] == Unit(n, r) {
      forall j | 0 <= j < n ensures m[r][j] == if r == j then 1 else 0 {
        assert Augmented(m, rhs)[r][j] == m[r][j];
      }
    }
  }

  ghost function LeftPart(b: Matrix, n: nat): (m: Matrix)
    requires forall i | 0 <= i < |b| :: n <= |b[i]|
  {
    seq(|b|, i requires 0 <= i < |b| => b[i][..n])
  }

  ghost function RightPart(b: Matrix, n: nat): (m: Matrix)
    requires forall i | 0 <= i < |b| :: n <= |b[i]|
  {
    seq(|b|, i requires 0 <= i < |b| => b[i][n..])
  }

  lemma AugmentedParts(b: Matrix, n: nat)
    requires forall i | 0 <= i < |b| :: n <= |b[i]|
    ensures Augmented(LeftPart(b, n), RightPart(b, n)) == b
  {
    forall i | 0 <= i < |b| ensures Augmented(LeftPart(b, n), RightPart(b, n))[i] == b[i] {
      assert b[i][..n] + b[i][n..] == b[i];
    }
  }

  lemma RightPartAugmented(m: Matrix, rhs: Matrix, n: nat)
    requires |m| == |rhs| && Rectangular(m, n)
    ensures RightPart(Augmented(m, rhs), n) == rhs
  {
    forall i | 0 <= i < |m| ensures RightPart(Augmented(m, rhs), n)[i] == rhs[i] {
      assert Augmented(m, rhs)[i] == m[i] + rhs[i];
    }
  }

  // What the elimination leaves on the right-hand side of the parity equations.
  ghost function Recovered(rows: seq<nat>, cols: seq<nat>, rhs: Matrix, width: nat): (blocks: Matrix)
    requires Rows(rows) && Columns(cols) && |rows| == |cols| == |rhs| && Rectangular(rhs, width)
    ensures |blocks| == |rows| && Rectangular(blocks, width)
  {
    var n := |rows|;
    var a := Augmented(Submatrix(rows, cols), rhs);
    var r := EliminateFrom(a, 0, n + width);
    if r.None? then rhs else RightPart(r.value, n)
  }

  // For distinct rows and columns the elimination never lacks a pivot, and what it
  // leaves is the one and only solution of the parity equations.
  lemma RecoveredIsUniqueSolution(rows: seq<nat>, cols: seq<nat>, rhs: Matrix, width: nat, other: Matrix)
    requires Rows(rows) && Columns(cols) && |rows| == |cols| == |rhs| && Rectangular(rhs, width)
    requires |other| == |rows| && Rectangular(other, width)
    ensures EliminateFrom(Augmented(Submatrix(rows, cols), rhs), 0, |rows| + width).Some?
    ensures Solves(Submatrix(rows, cols), rhs, other, |rows|, width) <==> other == Recovered(rows, cols, rhs, width)
  {
    hide Solves, SameKernel, Reduced, Nonsingular, EliminateFrom, Submatrix, Unit, Augmented;
    var n := |rows|;
    var m0 := Submatrix(rows, cols);
    var a := Augmented(m0, rhs);
    SubmatrixNonsingular(rows, cols, rhs, width);
    ReducedNothing(a, n + width);
    EliminationSolves(a, 0, n + width);
    var b := EliminateFrom(a, 0, n + width).value;
    var m, x := LeftPart(b, n), RightPart(b, n);
    AugmentedParts(b, n);
    ReducedIsIdentity(m, x, n, width);
    SameSolutions(m0, rhs, m, x, other, n, width);
    IdentitySolves(m, x, other, n, width);
  }

  // No right-hand side makes the elimination run out of pivots.
  lemma PivotFound(rows: seq<nat>, cols: seq<nat>, rhs: Matrix, width: nat)
    requires Rows(rows) && Columns(cols) && |rows| == |cols| == |rhs| && Rectangular(rhs, width)
    ensures EliminateFrom(Augmented(Submatrix(rows, cols), rhs), 0, |rows| + width).Some?
  {
    hide *;
    RecoveredIsUniqueSolution(rows, cols, rhs, width, rhs);
  }

  method Solve(rows: seq<nat>, cols: seq<nat>, rhs0: Matrix, width: nat) returns (ok: bool, blocks: Matrix)
    requires Rows(rows) && Columns(cols) && |rows| == |cols| == |rhs0| && Rectangular(rhs0, width)
    ensures ok && blocks == Recovered(rows, cols, rhs0, width)
  {
    hide Submatrix, EliminateFrom, Augmented;
    var m0 := CoefficientMatrix(rows, cols);
    var m;
    ok, m, blocks := Eliminate(m0, rhs0, |rows|, width);
    RecoveredIsUniqueSolution(rows, cols, rhs0, width, rhs0);
    RightPartAugmented(m, blocks, |rows|);
  }

  lemma ReducedNothing(a: Matrix, width: nat)
    requires Rectangular(a, width) && |a| <= width
    ensures Reduced(a, 0, width)
  {}

  method CoefficientOf(row: nat, col: nat) returns (c: byte)
    requires row < MAX_PARITY && col < MAX_GENERATION
    ensures c == Coefficient(row, col)
  {
    hide Mul, Inv, Xor;
    XorCancel(col, 128 + row);
    var i := Inverse(Xor(col, 128 + row));
    c := Multiply(Xor(col, 128), i.value);
  }

  method CoefficientMatrix(rows: seq<nat>, cols: seq<nat>) returns (m: Matrix)
    requires forall r | 0 <= r < |rows| :: rows[r] < MAX_PARITY
    requires forall c | 0 <= c < |cols| :: cols[c] < MAX_GENERATION
    ensures m == Submatrix(rows, cols)
  {
    hide Coefficient;
    m := [];
    for r := 0 to |rows|
      invariant |m| == r
      invariant forall k | 0 <= k < r :: m[k] == CoefficientRow(rows[k], cols)
    {
      var line: Vector := [];
      for c := 0 to |cols|
        invariant |line| == c
        invariant forall k | 0 <= k < c :: line[k] == Coefficient(rows[r], cols[k])
      {
        var x := CoefficientOf(rows[r], cols[c]);
        line := line + [x];
      }
      assert line == CoefficientRow(rows[r], cols);
      m := m + [line];
    }
  }
}
