/** Square matrices of balls (arb_mat_t) and of exact numbers (fmpq_mat_t), with the
    few matrix operations the LDL engine and its test use. */
module Matrices {
  import opened Balls

  /** A ball matrix, row by row. */
  type Matrix = seq<seq<Ball>>

  /** An exact matrix, row by row. */
  type RMatrix = seq<seq<real>>

  predicate IsSquare<T>(m: seq<seq<T>>) {
    forall i :: 0 <= i < |m| ==> |m[i]| == |m|
  }

  /** The contents of a two-dimensional array, row by row. */
  function Rows(a: array2<Ball>): (m: Matrix)
    reads a
    ensures |m| == a.Length0
    ensures forall i :: 0 <= i < |m| ==> |m[i]| == a.Length1
    ensures forall i, j :: 0 <= i < a.Length0 && 0 <= j < a.Length1 ==> m[i][j] == a[i, j]
  {
    seq(a.Length0, i requires 0 <= i < a.Length0 reads a =>
      seq(a.Length1, j requires 0 <= j < a.Length1 reads a => a[i, j]))
  }

  lemma RowsSquare(a: array2<Ball>)
    requires a.Length0 == a.Length1
    ensures IsSquare(Rows(a))
  {}

  /** Two matrices of the same size are equal when they agree entry by entry. */
  lemma MatrixExt<T>(m: seq<seq<T>>, p: seq<seq<T>>)
    requires IsSquare(m) && IsSquare(p) && |m| == |p|
    requires forall i, j :: 0 <= i < |m| && 0 <= j < |m| ==> m[i][j] == p[i][j]
    ensures m == p
  {
    forall i | 0 <= i < |m| ensures m[i] == p[i] {
    }
  }

  /** arb_mat_contains_fmpq_mat: every exact entry lies in the corresponding ball. */
  predicate MatContains(t: Matrix, q: RMatrix)
    requires IsSquare(t) && IsSquare(q) && |t| == |q|
  {
    forall i, j :: 0 <= i < |t| && 0 <= j < |t| ==> t[i][j].Contains(q[i][j])
  }

  predicate Symmetric(m: RMatrix)
    requires IsSquare(m)
  {
    forall i, j :: 0 <= i < |m| && 0 <= j < |m| ==> m[i][j] == m[j][i]
  }

  /** arb_mat_transpose. */
  function Transpose<T>(m: seq<seq<T>>): (t: seq<seq<T>>)
    requires IsSquare(m)
    ensures IsSquare(t) && |t| == |m|
    ensures forall i, j :: 0 <= i < |m| && 0 <= j < |m| ==> t[i][j] == m[j][i]
  {
    seq(|m|, i requires 0 <= i < |m| => seq(|m|, j requires 0 <= j < |m| => m[j][i]))
  }

  /** arb_mat_zero. */
  function ZeroMatrix(n: nat): (z: Matrix)
    ensures IsSquare(z) && |z| == n
  {
    seq(n, i => seq(n, j => Zero))
  }

  /** arb_mat_one. */
  function Identity(n: nat): (e: Matrix)
    ensures IsSquare(e) && |e| == n
  {
    seq(n, i => seq(n, j => if i == j then One else Zero))
  }

  /** arb_mat_neg. */
  function NegMatrix(m: Matrix): (r: Matrix)
    requires IsSquare(m)
    ensures IsSquare(r) && |r| == |m|
  {
    seq(|m|, i requires 0 <= i < |m| => seq(|m|, j requires 0 <= j < |m| => Neg(m[i][j])))
  }

  // ---------------------------------------------------------------------------
  // Products

  /** Sum of balls, left to right. */
  function BallSum(s: seq<Ball>): Ball {
    if |s| == 0 then Zero else Add(BallSum(s[..|s| - 1]), s[|s| - 1])
  }

  /** Sum of exact numbers, left to right. */
  function Sum(s: seq<real>): real {
    if |s| == 0 then 0.0 else Sum(s[..|s| - 1]) + s[|s| - 1]
  }

  /** arb_mat_mul: entry (i, j) is the ball sum of A[i][k] * B[k][j]. */
  function MatMul(a: Matrix, b: Matrix): (c: Matrix)
    requires IsSquare(a) && IsSquare(b) && |a| == |b|
    ensures IsSquare(c) && |c| == |a|
  {
    var n := |a|;
    seq(n, i requires 0 <= i < n =>
      seq(n, j requires 0 <= j < n =>
        BallSum(seq(n, k requires 0 <= k < n => Mul(a[i][k], b[k][j])))))
  }

  /** The exact product of two exact matrices. */
  function RMatMul(x: RMatrix, y: RMatrix): (z: RMatrix)
    requires IsSquare(x) && IsSquare(y) && |x| == |y|
    ensures IsSquare(z) && |z| == |x|
  {
    var n := |x|;
    seq(n, i requires 0 <= i < n =>
      seq(n, j requires 0 <= j < n =>
        Sum(seq(n, k requires 0 <= k < n => x[i][k] * y[k][j]))))
  }

  lemma SumSnoc(s: seq<real>, k: nat)
    requires k < |s|
    ensures Sum(s[..k + 1]) == Sum(s[..k]) + s[k]
  {
    assert s[..k + 1][..k] == s[..k];
  }

  lemma {:induction false} SumZero(s: seq<real>)
    requires forall t :: 0 <= t < |s| ==> s[t] == 0.0
    ensures Sum(s) == 0.0
  {
    if |s| > 0 {
      SumZero(s[..|s| - 1]);
    }
  }

  /** Terms that vanish past position m do not contribute to the sum. */
  lemma {:induction false} SumZeroTail(s: seq<real>, m: nat)
    requires m <= |s|
    requires forall t :: m <= t < |s| ==> s[t] == 0.0
    ensures Sum(s) == Sum(s[..m])
  {
    if |s| > m {
      SumZeroTail(s[..|s| - 1], m);
      assert s[..|s| - 1][..m] == s[..m];
    } else {
      assert s[..m] == s;
    }
  }

  /** A sum with a single nonzero term is that term. */
  lemma SumSingle(s: seq<real>, k: nat)
    requires k < |s|
    requires forall t :: 0 <= t < |s| && t != k ==> s[t] == 0.0
    ensures Sum(s) == s[k]
  {
    SumZeroTail(s, k + 1);
    SumSnoc(s, k);
    SumZero(s[..k]);
  }

  lemma {:induction false} SumAdd(a: seq<real>, b: seq<real>, c: seq<real>)
    requires |a| == |b| == |c|
    requires forall k :: 0 <= k < |c| ==> c[k] == a[k] + b[k]
    ensures Sum(c) == Sum(a) + Sum(b)
  {
    if |c| > 0 {
      var m := |c| - 1;
      SumAdd(a[..m], b[..m], c[..m]);
    }
  }

  lemma {:induction false} SumScale(s: seq<real>, t: seq<real>, x: real)
    requires |s| == |t|
    requires forall k :: 0 <= k < |t| ==> t[k] == x * s[k]
    ensures Sum(t) == x * Sum(s)
  {
    if |t| > 0 {
      var m := |t| - 1;
      SumScale(s[..m], t[..m], x);
      assert Sum(t) == x * Sum(s[..m]) + x * s[m];
    }
  }

  /** The row sums of a table with rows of length n. */
  function RowSums(f: seq<seq<real>>): (r: seq<real>)
    ensures |r| == |f|
  {
    seq(|f|, j requires 0 <= j < |f| => Sum(f[j]))
  }

  /** Column k of a table. */
  function Column(f: seq<seq<real>>, k: nat): (c: seq<real>)
    requires forall j :: 0 <= j < |f| ==> k < |f[j]|
    ensures |c| == |f|
  {
    seq(|f|, j requires 0 <= j < |f| => f[j][k])
  }

  function ColSums(f: seq<seq<real>>, n: nat): (r: seq<real>)
    requires forall j :: 0 <= j < |f| ==> |f[j]| == n
    ensures |r| == n
  {
    seq(n, k requires 0 <= k < n => Sum(Column(f, k)))
  }

  /** Summing a table by rows or by columns gives the same total. */
  lemma {:induction false} SumSwap(f: seq<seq<real>>, n: nat)
    requires forall j :: 0 <= j < |f| ==> |f[j]| == n
    ensures Sum(RowSums(f)) == Sum(ColSums(f, n))
  {
    if |f| == 0 {
      SumZero(ColSums(f, n));
    } else {
      var m := |f| - 1;
      var g := f[..m];
      SumSwap(g, n);
      assert RowSums(f)[..m] == RowSums(g);
      forall k | 0 <= k < n ensures ColSums(f, n)[k] == ColSums(g, n)[k] + f[m][k] {
        assert Column(f, k)[..m] == Column(g, k);
      }
      SumAdd(ColSums(g, n), f[m], ColSums(f, n));
    }
  }

  function Dot(a: seq<real>, b: seq<real>): real
    requires |a| == |b|
  {
    Sum(seq(|a|, k requires 0 <= k < |a| => a[k] * b[k]))
  }

  lemma Assoc(x: real, y: real, z: real)
    ensures (x * y) * z == x * (y * z)
  {}

  /** Table f is table t with row j scaled by w[j]. */
  predicate ScaledRows(f: seq<seq<real>>, t: seq<seq<real>>, w: seq<real>) {
    && |f| == |t| == |w|
    && (forall j :: 0 <= j < |f| ==> |f[j]| == |t[j]|)
    && forall j, k :: 0 <= j < |f| && 0 <= k < |f[j]| ==> f[j][k] == t[j][k] * w[j]
  }

  /** Row j of table t adds up to r[j]. */
  predicate RowsSumTo(t: seq<seq<real>>, r: seq<real>) {
    |t| == |r| && forall j :: 0 <= j < |t| ==> Sum(t[j]) == r[j]
  }

  /** Rows of a table f[j][k] == t[j][k] * w[j] add up to a dot product with w. */
  lemma RowSumsScaled(f: seq<seq<real>>, t: seq<seq<real>>, w: seq<real>, r: seq<real>)
    requires ScaledRows(f, t, w) && RowsSumTo(t, r)
    ensures Sum(RowSums(f)) == Dot(r, w)
  {
    var d := seq(|r|, k requires 0 <= k < |r| => r[k] * w[k]);
    forall j | 0 <= j < |f| ensures RowSums(f)[j] == d[j] {
      SumScale(t[j], f[j], w[j]);
    }
    assert RowSums(f) == d;
  }

  /** The terms of row i of L D L^T applied to v, row j, column k: (L[i][k] d[k]) (L[j][k] v[j]). */
  function LdlTable(l: RMatrix, d: seq<real>, v: seq<real>, i: nat): (f: seq<seq<real>>)
    requires IsSquare(l) && |d| == |v| == |l| && i < |l|
    ensures |f| == |l| && forall j :: 0 <= j < |f| ==> |f[j]| == |l|
  {
    seq(|l|, j requires 0 <= j < |l| =>
      seq(|l|, k requires 0 <= k < |l| => (l[i][k] * d[k]) * (l[j][k] * v[j])))
  }

  /** D (L^T v), for the diagonal d of D. */
  function DiagTimes(l: RMatrix, d: seq<real>, v: seq<real>): (g: seq<real>)
    requires IsSquare(l) && |d| == |v| == |l|
    ensures |g| == |l|
  {
    seq(|l|, k requires 0 <= k < |l| => d[k] * Dot(Column(l, k), v))
  }

  /** Column k of the table adds up to L[i][k] times entry k of D (L^T v). */
  lemma LdlTableColumn(l: RMatrix, d: seq<real>, v: seq<real>, i: nat, k: nat)
    requires IsSquare(l) && |d| == |v| == |l| && i < |l| && k < |l|
    ensures Sum(Column(LdlTable(l, d, v, i), k)) == l[i][k] * DiagTimes(l, d, v)[k]
  {
    var c := Column(l, k);
    SumScale(seq(|c|, j requires 0 <= j < |c| => c[j] * v[j]), Column(LdlTable(l, d, v, i), k), l[i][k] * d[k]);
    Assoc(l[i][k], d[k], Dot(c, v));
  }

  /** Summed by columns, the table is row i of L applied to D (L^T v). */
  lemma LdlTableColumns(l: RMatrix, d: seq<real>, v: seq<real>, i: nat)
    requires IsSquare(l) && |d| == |v| == |l| && i < |l|
    ensures Sum(ColSums(LdlTable(l, d, v, i), |l|)) == Dot(l[i], DiagTimes(l, d, v))
  {
    var g := DiagTimes(l, d, v);
    var e := seq(|l|, k requires 0 <= k < |l| => l[i][k] * g[k]);
    forall k | 0 <= k < |l| ensures ColSums(LdlTable(l, d, v, i), |l|)[k] == e[k] {
      LdlTableColumn(l, d, v, i, k);
    }
    assert ColSums(LdlTable(l, d, v, i), |l|) == e;
  }

  // ---------------------------------------------------------------------------
  // Quadratic forms

  /** The exact product Q v of a matrix with a vector. */
  function MatVec(q: RMatrix, v: seq<real>): (u: seq<real>)
    requires IsSquare(q) && |v| == |q|
    ensures |u| == |q| && forall i :: 0 <= i < |q| ==> u[i] == Dot(q[i], v)
  {
    seq(|q|, i requires 0 <= i < |q| => Dot(q[i], v))
  }

  /** The quadratic form v^T Q v. */
  function Quadratic(q: RMatrix, v: seq<real>): real
    requires IsSquare(q) && |v| == |q|
  {
    Dot(v, MatVec(q, v))
  }

  /** The entries of L^T v. */
  function LowerTimes(l: RMatrix, v: seq<real>): (w: seq<real>)
    requires IsSquare(l) && |v| == |l|
    ensures |w| == |l| && forall k :: 0 <= k < |l| ==> w[k] == Dot(Column(l, k), v)
  {
    seq(|l|, k requires 0 <= k < |l| => Dot(Column(l, k), v))
  }

  /** The terms (L^T v)[k] (D L^T v)[k], that is d[k] (L^T v)[k]^2, of the quadratic form
      of L D L^T. */
  function SquareTerms(l: RMatrix, d: seq<real>, v: seq<real>): (t: seq<real>)
    requires IsSquare(l) && |d| == |v| == |l|
    ensures |t| == |l|
  {
    var w, g := LowerTimes(l, v), DiagTimes(l, d, v);
    seq(|l|, k requires 0 <= k < |l| => w[k] * g[k])
  }

  /** The table v[i] (L[i][k] g[k]): its rows add up to the terms of v . (L g). */
  function FormTable(l: RMatrix, g: seq<real>, v: seq<real>): (f: seq<seq<real>>)
    requires IsSquare(l) && |g| == |v| == |l|
    ensures |f| == |l| && forall i :: 0 <= i < |f| ==> |f[i]| == |l|
  {
    seq(|l|, i requires 0 <= i < |l| =>
      seq(|l|, k requires 0 <= k < |l| => v[i] * (l[i][k] * g[k])))
  }

  lemma Swap3(a: real, b: real, c: real)
    ensures a * (b * c) == c * (b * a)
  {}

  lemma FormTableColumn(l: RMatrix, g: seq<real>, v: seq<real>, k: nat)
    requires IsSquare(l) && |g| == |v| == |l| && k < |l|
    ensures Sum(Column(FormTable(l, g, v), k)) == g[k] * Dot(Column(l, k), v)
  {
    var c := Column(l, k);
    var t := Column(FormTable(l, g, v), k);
    forall i | 0 <= i < |t| ensures t[i] == g[k] * (c[i] * v[i]) {
      Swap3(v[i], l[i][k], g[k]);
    }
    DotScale(c, v, t, g[k]);
  }

  /** A sequence of products a[k] * b[k] sums to the dot product of a and b. */
  lemma DotOf(a: seq<real>, b: seq<real>, s: seq<real>)
    requires |s| == |a| == |b|
    requires forall k :: 0 <= k < |s| ==> s[k] == a[k] * b[k]
    ensures Sum(s) == Dot(a, b)
  {
    var e := seq(|a|, k requires 0 <= k < |a| => a[k] * b[k]);
    forall k | 0 <= k < |s| ensures s[k] == e[k] {
    }
    assert s == e;
  }

  /** A scaled dot product as a sum: terms x (a[k] b[k]) add up to x (a . b). */
  lemma DotScale(a: seq<real>, b: seq<real>, t: seq<real>, x: real)
    requires |t| == |a| == |b|
    requires forall k :: 0 <= k < |t| ==> t[k] == x * (a[k] * b[k])
    ensures Sum(t) == x * Dot(a, b)
  {
    var e := seq(|a|, k requires 0 <= k < |a| => a[k] * b[k]);
    assert Sum(e) == Dot(a, b) by {
      DotOf(a, b, e);
    }
    assert Sum(t) == x * Sum(e) by {
      forall k | 0 <= k < |t| ensures t[k] == x * e[k] {
      }
      SumScale(e, t, x);
    }
  }

  lemma FormRows(l: RMatrix, g: seq<real>, v: seq<real>)
    requires IsSquare(l) && |g| == |v| == |l|
    ensures Sum(RowSums(FormTable(l, g, v))) == Dot(v, seq(|l|, i requires 0 <= i < |l| => Dot(l[i], g)))
  {
    var f := FormTable(l, g, v);
    var lg := seq(|l|, i requires 0 <= i < |l| => Dot(l[i], g));
    forall i | 0 <= i < |l| ensures RowSums(f)[i] == v[i] * lg[i] {
      DotScale(l[i], g, f[i], v[i]);
    }
    DotOf(v, lg, RowSums(f));
  }

  lemma FormColumns(l: RMatrix, g: seq<real>, v: seq<real>)
    requires IsSquare(l) && |g| == |v| == |l|
    ensures Sum(ColSums(FormTable(l, g, v), |l|)) == Dot(LowerTimes(l, v), g)
  {
    var f := FormTable(l, g, v);
    var w := LowerTimes(l, v);
    forall k | 0 <= k < |l| ensures ColSums(f, |l|)[k] == w[k] * g[k] {
      FormTableColumn(l, g, v, k);
    }
    DotOf(w, g, ColSums(f, |l|));
  }

  /** v^T (L g) == (L^T v) . g, by summing the table both ways. */
  lemma FormSwap(l: RMatrix, g: seq<real>, v: seq<real>)
    requires IsSquare(l) && |g| == |v| == |l|
    ensures Dot(v, seq(|l|, i requires 0 <= i < |l| => Dot(l[i], g))) == Dot(LowerTimes(l, v), g)
  {
    FormRows(l, g, v);
    FormColumns(l, g, v);
    SumSwap(FormTable(l, g, v), |l|);
  }

  /** The quadratic form of L D L^T applied to v is the sum of d[k] (L^T v)[k]^2. */
  lemma LdlQuadratic(l: RMatrix, d: seq<real>, v: seq<real>)
    requires IsSquare(l) && |d| == |v| == |l|
    ensures Dot(v, seq(|l|, i requires 0 <= i < |l| => Dot(l[i], DiagTimes(l, d, v))))
         == Sum(SquareTerms(l, d, v))
  {
    var g := DiagTimes(l, d, v);
    FormSwap(l, g, v);
    DotOf(LowerTimes(l, v), g, SquareTerms(l, d, v));
  }

  /** A matrix whose rows act on v as L D L^T does has the same quadratic form. */
  lemma FormFromRows(q: RMatrix, l: RMatrix, d: seq<real>, v: seq<real>)
    requires IsSquare(q) && IsSquare(l) && |q| == |l| == |d| == |v|
    requires forall i :: 0 <= i < |q| ==> Dot(q[i], v) == Dot(l[i], DiagTimes(l, d, v))
    ensures Quadratic(q, v) == Sum(SquareTerms(l, d, v))
  {
    assert MatVec(q, v) == seq(|l|, i requires 0 <= i < |l| => Dot(l[i], DiagTimes(l, d, v)));
    LdlQuadratic(l, d, v);
  }

  lemma {:induction false} SumNonNeg(s: seq<real>)
    requires forall k :: 0 <= k < |s| ==> s[k] >= 0.0
    ensures Sum(s) >= 0.0
  {
    if |s| > 0 {
      SumNonNeg(s[..|s| - 1]);
    }
  }

  /** A sum of non-negative terms one of which is positive is positive. */
  lemma {:induction false} SumPositive(s: seq<real>, j: nat)
    requires j < |s| && s[j] > 0.0
    requires forall k :: 0 <= k < |s| ==> s[k] >= 0.0
    ensures Sum(s) > 0.0
  {
    var m := |s| - 1;
    if j == m {
      SumNonNeg(s[..m]);
    } else {
      SumPositive(s[..m], j);
    }
  }

  /** w (d w) is non-negative for d >= 0, and positive for d > 0 and w != 0. */
  lemma WeightedProduct(d: real, w: real, g: real)
    requires 0.0 <= d && g == d * w
    ensures 0.0 <= w * g && (0.0 < d && w != 0.0 ==> 0.0 < w * g)
  {
    if w > 0.0 {
      NonNegMul(d, w);
      NonNegMul(w, g);
      if d > 0.0 {
        PosMul(d, w);
        PosMul(w, g);
      }
    } else if w < 0.0 {
      NonNegMul(d, -w);
      NonNegMul(-w, -g);
      if d > 0.0 {
        PosMul(d, -w);
        PosMul(-w, -g);
      }
    }
  }

  /** With non-negative weights, sum of D[k] (L^T v)[k]^2 is non-negative. */
  lemma SquareTermsNonNeg(l: RMatrix, d: seq<real>, v: seq<real>)
    requires IsSquare(l) && |d| == |v| == |l|
    requires forall r :: 0 <= r < |d| ==> d[r] >= 0.0
    ensures Sum(SquareTerms(l, d, v)) >= 0.0
  {
    var t, w, g := SquareTerms(l, d, v), LowerTimes(l, v), DiagTimes(l, d, v);
    forall r | 0 <= r < |t| ensures t[r] >= 0.0 {
      WeightedProduct(d[r], w[r], g[r]);
    }
    SumNonNeg(t);
  }

  /** With positive weights and some (L^T v)[k] nonzero, the sum of squares is positive. */
  lemma SquareTermsPositive(l: RMatrix, d: seq<real>, v: seq<real>, k: nat)
    requires IsSquare(l) && |d| == |v| == |l| && k < |l|
    requires forall r :: 0 <= r < |d| ==> d[r] > 0.0
    requires LowerTimes(l, v)[k] != 0.0
    ensures Sum(SquareTerms(l, d, v)) > 0.0
  {
    var t, w, g := SquareTerms(l, d, v), LowerTimes(l, v), DiagTimes(l, d, v);
    forall r | 0 <= r < |t| ensures t[r] >= 0.0 && (r == k ==> t[r] > 0.0) {
      WeightedProduct(d[r], w[r], g[r]);
    }
    SumPositive(t, k);
  }

  /** A matrix is the transpose of another exactly entry by entry, so enclosure carries over. */
  lemma TransposeContains(a: Matrix, x: RMatrix)
    requires IsSquare(a) && IsSquare(x) && |a| == |x| && MatContains(a, x)
    ensures MatContains(Transpose(a), Transpose(x))
  {}

  /** A ball sum contains the exact sum of values contained in its terms. */
  lemma {:induction false} BallSumContains(bs: seq<Ball>, xs: seq<real>)
    requires |bs| == |xs|
    requires forall k :: 0 <= k < |bs| ==> bs[k].Contains(xs[k])
    ensures BallSum(bs).Contains(Sum(xs))
  {
    if |bs| > 0 {
      var m := |bs| - 1;
      BallSumContains(bs[..m], xs[..m]);
      AddContains(BallSum(bs[..m]), bs[m], Sum(xs[..m]), xs[m]);
    }
  }

  /** Inclusion isotonicity of the matrix product. */
  lemma MatMulContains(a: Matrix, b: Matrix, x: RMatrix, y: RMatrix)
    requires IsSquare(a) && IsSquare(b) && IsSquare(x) && IsSquare(y)
    requires |a| == |b| == |x| == |y|
    requires MatContains(a, x) && MatContains(b, y)
    ensures MatContains(MatMul(a, b), RMatMul(x, y))
  {
    var n := |a|;
    forall i, j | 0 <= i < n && 0 <= j < n
      ensures MatMul(a, b)[i][j].Contains(RMatMul(x, y)[i][j])
    {
      var bs := seq(n, k requires 0 <= k < n => Mul(a[i][k], b[k][j]));
      var xs := seq(n, k requires 0 <= k < n => x[i][k] * y[k][j]);
      forall k | 0 <= k < n ensures bs[k].Contains(xs[k]) {
        MulContains(a[i][k], b[k][j], x[i][k], y[k][j]);
      }
      BallSumContains(bs, xs);
    }
  }
}
