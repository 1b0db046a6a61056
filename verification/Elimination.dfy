/** Vectors over GF(256) and the elimination that solves the parity equations. */
module Elimination {
  import opened Bytes
  import opened Options
  import opened Gf256

  type Vector = seq<byte>

  function Dot(a: Vector, x: Vector): byte
    requires |a| == |x|
  {
    if |a| == 0 then 0 else Xor(Mul(a[0], x[0]), Dot(a[1..], x[1..]))
  }

  function Zeros(n: nat): (v: Vector)
    ensures |v| == n
  {
    seq(n, _ => 0)
  }

  // The unit vector with a one at position `j`.
  function Unit(n: nat, j: nat): (v: Vector)
    ensures |v| == n
  {
    seq(n, i => if i == j then 1 else 0)
  }

  function ScaleRow(row: Vector, f: byte): (v: Vector)
    ensures |v| == |row|
  {
    seq(|row|, i requires 0 <= i < |row| => Mul(row[i], f))
  }

  // row + f * other
  function AddRow(row: Vector, f: byte, other: Vector): (v: Vector)
    requires |row| == |other|
    ensures |v| == |row|
  {
    seq(|row|, i requires 0 <= i < |row| => Xor(row[i], Mul(f, other[i])))
  }

  // ---- the scalar product is linear in its first argument ----

  lemma {:induction false} DotScale(row: Vector, f: byte, x: Vector)
    requires |row| == |x|
    ensures Dot(ScaleRow(row, f), x) == Mul(f, Dot(row, x))
  {
    hide Mul, Xor;
    if |row| == 0 {
      MulZero(f);
    } else {
      assert ScaleRow(row, f)[1..] == ScaleRow(row[1..], f);
      DotScale(row[1..], f, x[1..]);
      MulXorRight(f, Mul(row[0], x[0]), Dot(row[1..], x[1..]));
      MulComm(row[0], f);
      MulAssoc(f, row[0], x[0]);
    }
  }

  lemma {:induction false} DotAdd(row: Vector, f: byte, other: Vector, x: Vector)
    requires |row| == |other| == |x|
    ensures Dot(AddRow(row, f, other), x) == Xor(Dot(row, x), Mul(f, Dot(other, x)))
  {
    hide Mul, Xor;
    if |row| == 0 {
      MulZero(f);
      XorUnit(0);
    } else {
      var r, o := Dot(row[1..], x[1..]), Dot(other[1..], x[1..]);
      assert AddRow(row, f, other)[1..] == AddRow(row[1..], f, other[1..]);
      DotAdd(row[1..], f, other[1..], x[1..]);
      MulXorLeft(row[0], Mul(f, other[0]), x[0]);
      MulAssoc(f, other[0], x[0]);
      XorSwap(Mul(row[0], x[0]), Mul(f, Mul(other[0], x[0])), r, Mul(f, o));
      MulXorRight(f, Mul(other[0], x[0]), o);
    }
  }

  lemma {:induction false} DotConcat(a: Vector, b: Vector, x: Vector, y: Vector)
    requires |a| == |x| && |b| == |y|
    ensures Dot(a + b, x + y) == Xor(Dot(a, x), Dot(b, y))
  {
    hide Mul, Xor;
    if |a| == 0 {
      XorUnit(Dot(b, y));
      assert a + b == b && x + y == y;
    } else {
      assert (a + b)[1..] == a[1..] + b && (x + y)[1..] == x[1..] + y;
      DotConcat(a[1..], b, x[1..], y);
      XorAssoc(Mul(a[0], x[0]), Dot(a[1..], x[1..]), Dot(b, y));
    }
  }

  lemma {:induction false} DotZeros(a: Vector)
    ensures Dot(a, Zeros(|a|)) == 0
  {
    hide Mul, Xor;
    if |a| > 0 {
      assert Zeros(|a|)[1..] == Zeros(|a| - 1);
      DotZeros(a[1..]);
      MulZero(a[0]);
      XorUnit(0);
    }
  }

  lemma {:induction false} DotUnit(a: Vector, j: nat)
    requires j < |a|
    ensures Dot(a, Unit(|a|, j)) == a[j]
  {
    hide Mul, Xor;
    var n := |a|;
    if j == 0 {
      assert Unit(n, 0)[1..] == Zeros(n - 1);
      DotZeros(a[1..]);
      MulOne(a[0]);
      XorUnit(a[0]);
    } else {
      assert Unit(n, j)[1..] == Unit(n - 1, j - 1);
      DotUnit(a[1..], j - 1);
      MulZero(a[0]);
      XorUnit(a[j]);
    }
  }

  lemma {:induction false} DotSymmetric(a: Vector, b: Vector)
    requires |a| == |b|
    ensures Dot(a, b) == Dot(b, a)
  {
    hide Mul, Xor;
    if |a| > 0 {
      DotSymmetric(a[1..], b[1..]);
      MulComm(a[0], b[0]);
    }
  }

  // ---- matrices, row operations and kernels ----

  type Matrix = seq<Vector>

  ghost predicate Rectangular(a: Matrix, width: nat) {
    forall r | 0 <= r < |a| :: |a[r]| == width
  }

  // `y` satisfies every row of `a` with right-hand side zero.
  ghost predicate InKernel(a: Matrix, y: Vector)
    requires Rectangular(a, |y|)
  {
    forall r | 0 <= r < |a| :: Dot(a[r], y) == 0
  }

  // The two matrices have exactly the same kernel.
  ghost predicate SameKernel(a: Matrix, b: Matrix, width: nat)
    requires Rectangular(a, width) && Rectangular(b, width)
  {
    forall y: Vector | |y| == width :: InKernel(a, y) <==> InKernel(b, y)
  }

  // No non-zero combination of the first |a| columns vanishes.
  ghost predicate Nonsingular(a: Matrix, width: nat)
    requires Rectangular(a, width) && |a| <= width
  {
    forall z: Vector | |z| == |a| && InKernel(a, z + Zeros(width - |a|)) :: z == Zeros(|a|)
  }

  function SwapRows(a: Matrix, p: nat, c: nat): (b: Matrix)
    requires p < |a| && c < |a|
    ensures |b| == |a|
  {
    a[p := a[c]][c := a[p]]
  }

  function NormalizeRow(a: Matrix, c: nat): (b: Matrix)
    requires c < |a| && c < |a[c]|
    ensures |b| == |a|
  {
    a[c := ScaleRow(a[c], Inv(a[c][c]))]
  }

  // Subtract multiples of row `c` from rows 0, ..., `m` - 1 so that column `c` vanishes there.
  function ClearRows(a: Matrix, c: nat, width: nat, m: nat): (b: Matrix)
    requires c < |a| && m <= |a|
    requires c < width && forall r | 0 <= r < |a| :: |a[r]| == width
    ensures |b| == |a|
  {
    seq(|a|, r requires 0 <= r < |a| => if r == c || r >= m then a[r] else AddRow(a[r], a[r][c], a[c]))
  }

  // The first row from `p` on with a non-zero entry in column `c`, or |a|.
  function Pivot(a: Matrix, c: nat, width: nat, p: nat): (q: nat)
    requires c < width && forall r | 0 <= r < |a| :: |a[r]| == width
    requires p <= |a|
    ensures p <= q <= |a|
    ensures q < |a| ==> a[q][c] != 0
    ensures forall r | p <= r < q :: a[r][c] == 0
    decreases |a| - p
  {
    if p == |a| || a[p][c] != 0 then p else Pivot(a, c, width, p + 1)
  }

  lemma SwapKeepsKernel(a: Matrix, p: nat, c: nat, width: nat)
    requires Rectangular(a, width) && p < |a| && c < |a|
    ensures Rectangular(SwapRows(a, p, c), width)
    ensures SameKernel(a, SwapRows(a, p, c), width)
  {
    hide Dot;
    var b := SwapRows(a, p, c);
    assert SwapRows(b, p, c) == a;
    forall y: Vector | |y| == width
      ensures InKernel(a, y) <==> InKernel(b, y)
    {
      if InKernel(a, y) {
        forall r | 0 <= r < |b| ensures Dot(b[r], y) == 0 {
          assert b[r] == a[if r == c then p else if r == p then c else r];
        }
      }
      if InKernel(b, y) {
        forall r | 0 <= r < |a| ensures Dot(a[r], y) == 0 {
          assert a[r] == b[if r == c then p else if r == p then c else r];
        }
      }
    }
  }

  lemma NormalizeKeepsKernel(a: Matrix, c: nat, width: nat)
    requires Rectangular(a, width) && c < |a| && c < width && a[c][c] != 0
    ensures Rectangular(NormalizeRow(a, c), width)
    ensures SameKernel(a, NormalizeRow(a, c), width)
    ensures NormalizeRow(a, c)[c][c] == 1
  {
    hide Dot, Mul, Inv;
    var f := Inv(a[c][c]);
    InverseLaw(a[c][c]);
    InvNonzero(a[c][c]);
    forall y: Vector | |y| == width
      ensures InKernel(a, y) <==> InKernel(NormalizeRow(a, c), y)
    {
      DotScale(a[c], f, y);
      MulZero(f);
      if Mul(f, Dot(a[c], y)) == 0 {
        NoZeroDivisors(f, Dot(a[c], y));
      }
      assert forall r | 0 <= r < |a| && r != c :: NormalizeRow(a, c)[r] == a[r];
      assert NormalizeRow(a, c)[c] == ScaleRow(a[c], f);
    }
  }

  lemma ClearKeepsKernel(a: Matrix, c: nat, width: nat)
    requires Rectangular(a, width) && c < |a| && c < width
    ensures Rectangular(ClearRows(a, c, width, |a|), width)
    ensures SameKernel(a, ClearRows(a, c, width, |a|), width)
  {
    hide Dot, Mul, Xor;
    var b := ClearRows(a, c, width, |a|);
    forall y: Vector | |y| == width
      ensures InKernel(a, y) <==> InKernel(b, y)
    {
      if InKernel(a, y) || InKernel(b, y) {
        assert b[c] == a[c];
        assert Dot(a[c], y) == 0;
        forall r | 0 <= r < |a| ensures Dot(b[r], y) == Dot(a[r], y) {
          if r != c {
            DotAdd(a[r], a[r][c], a[c], y);
            MulZero(a[r][c]);
            XorUnit(Dot(a[r], y));
          }
        }
      }
    }
  }

  // ---- the elimination ----

  // One round: bring the pivot to row `c`, scale it to one, clear the rest of the column.
  ghost function ReduceColumn(a: Matrix, c: nat, width: nat, p: nat): (b: Matrix)
    requires Rectangular(a, width) && c <= p < |a| <= width
    ensures |b| == |a| && Rectangular(b, width)
  {
    var n := NormalizeRow(SwapRows(a, p, c), c);
    ClearRows(n, c, width, |a|)
  }

  // The rounds from column `c` on; None when some column has no pivot.
  ghost function EliminateFrom(a: Matrix, c: nat, width: nat): (r: Option<Matrix>)
    requires Rectangular(a, width) && c <= |a| <= width
    ensures r.Some? ==> |r.value| == |a| && Rectangular(r.value, width)
    decreases |a| - c
  {
    if c == |a| then Some(a) else
      var p := Pivot(a, c, width, c);
      if p == |a| then None else EliminateFrom(ReduceColumn(a, c, width, p), c + 1, width)
  }

  // The first `c` columns are those of the identity.
  ghost predicate Reduced(a: Matrix, c: nat, width: nat)
    requires Rectangular(a, width) && c <= |a| <= width
  {
    forall r, j | 0 <= r < |a| && 0 <= j < c :: a[r][j] == if r == j then 1 else 0
  }

  lemma SwapKeepsReduced(a: Matrix, c: nat, width: nat, p: nat)
    requires Rectangular(a, width) && c <= p < |a| <= width && Reduced(a, c, width)
    ensures Rectangular(SwapRows(a, p, c), width) && Reduced(SwapRows(a, p, c), c, width)
  {}

  lemma NormalizeKeepsReduced(a: Matrix, c: nat, width: nat)
    requires Rectangular(a, width) && c < |a| <= width && Reduced(a, c, width)
    ensures Rectangular(NormalizeRow(a, c), width) && Reduced(NormalizeRow(a, c), c, width)
  {
    hide Mul, Inv;
    MulZero(Inv(a[c][c]));
  }

  lemma ClearReduces(a: Matrix, c: nat, width: nat)
    requires Rectangular(a, width) && c < |a| <= width && Reduced(a, c, width) && a[c][c] == 1
    ensures Rectangular(ClearRows(a, c, width, |a|), width)
    ensures Reduced(ClearRows(a, c, width, |a|), c + 1, width)
  {
    hide Mul, Xor;
    var b := ClearRows(a, c, width, |a|);
    forall r, j | 0 <= r < |a| && 0 <= j < c + 1
      ensures b[r][j] == if r == j then 1 else 0
    {
      if r != c {
        MulZero(a[r][c]);
        MulOne(a[r][c]);
        XorUnit(a[r][j]);
      }
    }
  }

  // A round reduces one more column and keeps the solutions.
  lemma RoundKeepsSolutions(a: Matrix, c: nat, width: nat, p: nat)
    requires Rectangular(a, width) && c <= p < |a| <= width && Reduced(a, c, width) && a[p][c] != 0
    ensures Reduced(ReduceColumn(a, c, width, p), c + 1, width)
    ensures SameKernel(a, ReduceColumn(a, c, width, p), width)
  {
    hide Dot, Mul, Xor, Inv, InKernel, ScaleRow, AddRow, SwapRows, NormalizeRow, ClearRows, Reduced;
    var s := SwapRows(a, p, c);
    SwapTop(a, p, c);
    SwapKeepsKernel(a, p, c, width);
    SwapKeepsReduced(a, c, width, p);
    var n := NormalizeRow(s, c);
    NormalizeKeepsKernel(s, c, width);
    NormalizeKeepsReduced(s, c, width);
    ClearKeepsKernel(n, c, width);
    ClearReduces(n, c, width);
  }

  lemma SwapTop(a: Matrix, p: nat, c: nat)
    requires p < |a| && c < |a|
    ensures SwapRows(a, p, c)[c] == a[p]
  {}

  // The combination of columns that vanishes when column `c` has no pivot.
  ghost function KernelWitness(a: Matrix, c: nat, width: nat): (z: Vector)
    requires Rectangular(a, width) && c < |a| <= width
    ensures |z| == |a|
  {
    seq(|a|, j requires 0 <= j < |a| => if j < c then a[j][c] else if j == c then 1 else 0)
  }

  lemma WitnessVanishes(a: Matrix, c: nat, width: nat, r: nat)
    requires Rectangular(a, width) && c < |a| <= width && Reduced(a, c, width) && r < |a|
    requires r >= c ==> a[r][c] == 0
    ensures Dot(a[r], KernelWitness(a, c, width) + Zeros(width - |a|)) == 0
  {
    hide Dot, Mul, Xor;
    var z := KernelWitness(a, c, width) + Zeros(width - |a|);
    var left, rest := z[..c], Zeros(width - c - 1);
    var row := a[r];
    assert z == left + ([1] + rest);
    assert row == row[..c] + ([row[c]] + row[c + 1..]);
    DotConcat(row[..c], [row[c]] + row[c + 1..], left, [1] + rest);
    DotConcat([row[c]], row[c + 1..], [1], rest);
    DotZeros(row[c + 1..]);
    assert Unit(1, 0) == [1];
    DotUnit([row[c]], 0);
    XorUnit(row[c]);
    DotSymmetric(row[..c], left);
    if r < c {
      assert row[..c] == Unit(c, r);
      DotUnit(left, r);
    } else {
      assert row[..c] == Zeros(c);
      DotZeros(left);
    }
  }

  // A column without a pivot makes the matrix singular.
  lemma NoPivotSingular(a: Matrix, c: nat, width: nat)
    requires Rectangular(a, width) && c < |a| <= width && Reduced(a, c, width)
    requires Pivot(a, c, width, c) == |a|
    ensures !Nonsingular(a, width)
  {
    hide Dot, Mul, Xor, Pivot;
    var z := KernelWitness(a, c, width);
    forall r | 0 <= r < |a| ensures Dot(a[r], z + Zeros(width - |a|)) == 0 {
      WitnessVanishes(a, c, width, r);
    }
    assert InKernel(a, z + Zeros(width - |a|));
    assert z[c] == 1 && Zeros(|a|)[c] == 0;
  }

  lemma SameKernelNonsingular(a: Matrix, b: Matrix, width: nat)
    requires Rectangular(a, width) && Rectangular(b, width) && |a| == |b| <= width
    requires SameKernel(a, b, width) && Nonsingular(a, width)
    ensures Nonsingular(b, width)
  {
    hide InKernel, Zeros;
    forall z: Vector | |z| == |b| && InKernel(b, z + Zeros(width - |b|)) ensures z == Zeros(|b|) {
      assert InKernel(a, z + Zeros(width - |a|));
    }
  }

  // A nonsingular system is brought to the identity with the same solutions.
  lemma {:induction false} EliminationSolves(a: Matrix, c: nat, width: nat)
    requires Rectangular(a, width) && c <= |a| <= width && Reduced(a, c, width) && Nonsingular(a, width)
    ensures EliminateFrom(a, c, width).Some?
    ensures var b := EliminateFrom(a, c, width).value;
            Reduced(b, |b|, width) && SameKernel(a, b, width)
    decreases |a| - c
  {
    hide InKernel, Reduced, Nonsingular, ReduceColumn, Pivot;
    if c < |a| {
      if Pivot(a, c, width, c) == |a| {
        NoPivotSingular(a, c, width);
      }
      var p := Pivot(a, c, width, c);
      var b := ReduceColumn(a, c, width, p);
      RoundKeepsSolutions(a, c, width, p);
      SameKernelNonsingular(a, b, width);
      EliminationSolves(b, c + 1, width);
    }
  }

  // Whenever it succeeds, the elimination leaves the identity with the same solutions.
  lemma {:induction false} EliminationKeeps(a: Matrix, c: nat, width: nat)
    requires Rectangular(a, width) && c <= |a| <= width && Reduced(a, c, width) && EliminateFrom(a, c, width).Some?
    ensures var b := EliminateFrom(a, c, width).value;
            Reduced(b, |b|, width) && SameKernel(a, b, width)
    decreases |a| - c
  {
    hide InKernel, Reduced, ReduceColumn, Pivot;
    if c < |a| {
      var p := Pivot(a, c, width, c);
      RoundKeepsSolutions(a, c, width, p);
      EliminationKeeps(ReduceColumn(a, c, width, p), c + 1, width);
    }
  }

  lemma IdentityRow(a: Matrix, width: nat, r: nat, z: Vector)
    requires Rectangular(a, width) && |a| <= width && Reduced(a, |a|, width) && r < |a| == |z|
    ensures Dot(a[r], z + Zeros(width - |a|)) == z[r]
  {
    hide Dot, Mul, Xor;
    var n := |a|;
    var left, right := a[r][..n], a[r][n..];
    assert left == Unit(n, r) && a[r] == left + right;
    DotConcat(left, right, z, Zeros(width - n));
    DotZeros(right);
    DotSymmetric(left, z);
    DotUnit(z, r);
    XorUnit(z[r]);
  }

  lemma IdentityNonsingular(a: Matrix, width: nat)
    requires Rectangular(a, width) && |a| <= width && Reduced(a, |a|, width)
    ensures Nonsingular(a, width)
  {
    hide Dot, Reduced;
    forall z: Vector | |z| == |a| && InKernel(a, z + Zeros(width - |a|)) ensures z == Zeros(|a|) {
      forall r | 0 <= r < |z| ensures z[r] == 0 {
        IdentityRow(a, width, r, z);
      }
    }
  }

  // The elimination succeeds on exactly the nonsingular systems.
  lemma EliminationExact(a: Matrix, width: nat)
    requires Rectangular(a, width) && |a| <= width
    ensures EliminateFrom(a, 0, width).Some? <==> Nonsingular(a, width)
  {
    hide EliminateFrom, Nonsingular, SameKernel;
    if Nonsingular(a, width) {
      EliminationSolves(a, 0, width);
    }
    if EliminateFrom(a, 0, width).Some? {
      var b := EliminateFrom(a, 0, width).value;
      EliminationKeeps(a, 0, width);
      IdentityNonsingular(b, width);
      KernelSymmetric(a, b, width);
      SameKernelNonsingular(b, a, width);
    }
  }

  lemma KernelSymmetric(a: Matrix, b: Matrix, width: nat)
    requires Rectangular(a, width) && Rectangular(b, width) && SameKernel(a, b, width)
    ensures SameKernel(b, a, width)
  {
    hide InKernel;
  }

  // ---- the implementation ----

  // The coefficient matrix with its right-hand side written to the right of it.
  function Augmented(m: Matrix, rhs: Matrix): (a: Matrix)
    requires |m| == |rhs|
    ensures |a| == |m|
  {
    seq(|m|, r requires 0 <= r < |m| => m[r] + rhs[r])
  }

  method ScaleLoop(row: Vector, f: byte) returns (v: Vector)
    ensures v == ScaleRow(row, f)
  {
    hide Mul;
    v := row;
    for i := 0 to |row|
      invariant |v| == |row|
      invariant forall k | 0 <= k < |row| :: v[k] == if k < i then Mul(row[k], f) else row[k]
    {
      var x := Multiply(v[i], f);
      v := v[i := x];
    }
  }

  method AddLoop(row: Vector, f: byte, other: Vector) returns (v: Vector)
    requires |row| == |other|
    ensures v == AddRow(row, f, other)
  {
    hide Mul, Xor;
    v := row;
    for i := 0 to |row|
      invariant |v| == |row|
      invariant forall k | 0 <= k < |row| :: v[k] == if k < i then Xor(row[k], Mul(f, other[k])) else row[k]
    {
      var x := Multiply(f, other[i]);
      v := v[i := Xor(v[i], x)];
    }
  }

  lemma ScaleConcat(a: Vector, b: Vector, f: byte)
    ensures ScaleRow(a + b, f) == ScaleRow(a, f) + ScaleRow(b, f)
  {
    hide Mul;
  }

  lemma AddConcat(a: Vector, b: Vector, f: byte, c: Vector, d: Vector)
    requires |a| == |c| && |b| == |d|
    ensures AddRow(a + b, f, c + d) == AddRow(a, f, c) + AddRow(b, f, d)
  {
    hide Mul, Xor;
  }

  ghost predicate Shaped(m: Matrix, rhs: Matrix, n: nat, width: nat) {
    |m| == |rhs| == n && Rectangular(m, n) && Rectangular(rhs, width)
  }

  method FindPivot(m: Matrix, c: nat, n: nat) returns (p: nat)
    requires |m| == n && Rectangular(m, n) && c < n
    ensures p == Pivot(m, c, n, c)
  {
    p := c;
    while p < n && m[p][c] == 0
      invariant c <= p <= n
      invariant Pivot(m, c, n, p) == Pivot(m, c, n, c)
    {
      p := p + 1;
    }
  }

  lemma {:induction false} PivotAugmented(m: Matrix, rhs: Matrix, n: nat, width: nat, c: nat, p: nat)
    requires Shaped(m, rhs, n, width) && c < n && p <= n
    ensures Rectangular(Augmented(m, rhs), n + width)
    ensures Pivot(m, c, n, p) == Pivot(Augmented(m, rhs), c, n + width, p)
    decreases n - p
  {
    if p < n { PivotAugmented(m, rhs, n, width, c, p + 1); }
  }

  method ClearLoop(m0: Matrix, rhs0: Matrix, n: nat, width: nat, c: nat) returns (m: Matrix, rhs: Matrix)
    requires Shaped(m0, rhs0, n, width) && c < n
    ensures Shaped(m, rhs, n, width)
    ensures Rectangular(Augmented(m0, rhs0), n + width)
    ensures Augmented(m, rhs) == ClearRows(Augmented(m0, rhs0), c, n + width, n)
  {
    hide AddRow, Mul, Xor;
    m, rhs := m0, rhs0;
    ghost var a := Augmented(m0, rhs0);
    assert Rectangular(a, n + width);
    assert ClearRows(a, c, n + width, 0) == a;
    for r := 0 to n
      invariant Shaped(m, rhs, n, width)
      invariant m[c] == m0[c] && rhs[c] == rhs0[c]
      invariant forall k | r <= k < n :: m[k] == m0[k] && rhs[k] == rhs0[k]
      invariant forall k | 0 <= k < r && k != c :: m[k] + rhs[k] == AddRow(a[k], a[k][c], a[c])
    {
      if r != c {
        var factor := m[r][c];
        AddConcat(m[r], rhs[r], factor, m[c], rhs[c]);
        var row := AddLoop(m[r], factor, m[c]);
        var right := AddLoop(rhs[r], factor, rhs[c]);
        m, rhs := m[r := row], rhs[r := right];
      }
    }
  }

  // Gauss-Jordan elimination of the system with right-hand sides of `width` bytes.
  // Scale the pivot row on both sides.
  method ScaleLoops(m0: Matrix, rhs0: Matrix, n: nat, width: nat, c: nat) returns (m: Matrix, rhs: Matrix)
    requires Shaped(m0, rhs0, n, width) && c < n && m0[c][c] != 0
    ensures Shaped(m, rhs, n, width) && Augmented(m, rhs) == NormalizeRow(Augmented(m0, rhs0), c)
  {
    hide Mul, Inv, ScaleRow;
    var scale := Inverse(m0[c][c]);
    ScaleConcat(m0[c], rhs0[c], scale.value);
    var row := ScaleLoop(m0[c], scale.value);
    var right := ScaleLoop(rhs0[c], scale.value);
    m, rhs := m0[c := row], rhs0[c := right];
    assert Augmented(m, rhs) == NormalizeRow(Augmented(m0, rhs0), c);
  }

  method Eliminate(m0: Matrix, rhs0: Matrix, n: nat, width: nat) returns (ok: bool, m: Matrix, rhs: Matrix)
    requires Shaped(m0, rhs0, n, width)
    ensures Shaped(m, rhs, n, width) && Rectangular(Augmented(m0, rhs0), n + width)
    ensures EliminateFrom(Augmented(m0, rhs0), 0, n + width) == if ok then Some(Augmented(m, rhs)) else None
  {
    hide Mul, Inv, ScaleRow, AddRow, Pivot, ClearRows, Xor;
    m, rhs := m0, rhs0;
    ghost var target := EliminateFrom(Augmented(m0, rhs0), 0, n + width);
    var c := 0;
    while c < n
      invariant c <= n && Shaped(m, rhs, n, width)
      invariant EliminateFrom(Augmented(m, rhs), c, n + width) == target
    {
      var p := FindPivot(m, c, n);
      PivotAugmented(m, rhs, n, width, c, c);
      if p == n {
        return false, m, rhs;
      }
      ghost var a := Augmented(m, rhs);
      m, rhs := SwapRows(m, p, c), SwapRows(rhs, p, c);
      assert Augmented(m, rhs) == SwapRows(a, p, c);
      m, rhs := ScaleLoops(m, rhs, n, width, c);
      m, rhs := ClearLoop(m, rhs, n, width, c);
      c := c + 1;
    }
    ok := true;
  }
}
