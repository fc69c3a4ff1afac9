/** The LDL^T recurrence of arb_mat/ldl.c run on exact numbers, the reference the ball
    computation encloses. With nonzero pivots it yields an exact factorisation
    Q = L * D * L^T of a symmetric matrix Q. */
module ExactLdl {
  import opened Balls
  import opened Matrices
  import opened Ldl

  /** Exact division; a zero divisor gives 0 (only reached where the ball divisor
      contains zero, so the ball quotient is indeterminate). */
  function XDiv(x: real, y: real): real {
    if y == 0.0 then 0.0 else x / y
  }

  /** One exact subtraction w - x * (y1 * y2) of the recurrence. */
  function XStep(w: real, x: real, y1: real, y2: real): real {
    w - x * (y1 * y2)
  }

  function XEntry(q: RMatrix, i: nat, j: nat): real
    requires IsSquare(q) && j <= i < |q|
    decreases i, j, 1, 0
  {
    if j < i then XDiv(XOff(q, i, j, j), XEntry(q, j, j)) else XDiag(q, i, i)
  }

  function XOff(q: RMatrix, i: nat, j: nat, k: nat): real
    requires IsSquare(q) && k <= j < i < |q|
    decreases i, j, 0, k
  {
    if k == 0 then q[i][j]
    else XStep(XOff(q, i, j, k - 1), XEntry(q, k - 1, k - 1), XEntry(q, i, k - 1), XEntry(q, j, k - 1))
  }

  function XDiag(q: RMatrix, i: nat, k: nat): real
    requires IsSquare(q) && k <= i < |q|
    decreases i, i, 0, k
  {
    if k == 0 then q[i][i]
    else XStep(XDiag(q, i, k - 1), XEntry(q, k - 1, k - 1), XEntry(q, i, k - 1), XEntry(q, i, k - 1))
  }

  // ---------------------------------------------------------------------------
  // Enclosure: the ball recurrence contains the exact one

  lemma DivContainsExact(a: Ball, b: Ball, x: real, y: real)
    requires a.Contains(x) && b.Contains(y)
    ensures Div(a, b).Contains(XDiv(x, y))
  {
    if y == 0.0 {
      assert b.MayBeZero();
    } else {
      DivContains(a, b, x, y);
    }
  }

  /** Every entry the ball recurrence produces contains the entry the exact recurrence
      produces from any exact matrix the input encloses. */
  lemma {:induction false} EntryContains(m: Matrix, q: RMatrix, i: nat, j: nat)
    requires IsSquare(m) && IsSquare(q) && |m| == |q| && MatContains(m, q)
    requires j <= i < |m|
    ensures Entry(m, i, j).Contains(XEntry(q, i, j))
    decreases i, j, 1, 0
  {
    if j < i {
      OffSumContains(m, q, i, j, j);
      EntryContains(m, q, j, j);
      DivContainsExact(OffSum(m, i, j, j), Entry(m, j, j), XOff(q, i, j, j), XEntry(q, j, j));
    } else {
      DiagSumContains(m, q, i, i);
    }
  }

  /** One subtraction step of the recurrence preserves enclosure: a ball r and a number
      v known to be the two sides of the step w - x * u, with every operand enclosed. */
  lemma StepContains(r: Ball, v: real, z: Ball, p: Ball, c: Ball, w: real, x: real, u: real)
    requires z.Contains(w) && p.Contains(x) && c.Contains(u)
    requires r == SubMul(z, p, c) && v == w - x * u
    ensures r.Contains(v)
  {
    SubMulContains(z, p, c, w, x, u);
  }

  lemma {:induction false} OffSumContains(m: Matrix, q: RMatrix, i: nat, j: nat, k: nat)
    requires IsSquare(m) && IsSquare(q) && |m| == |q| && MatContains(m, q)
    requires k <= j < i < |m|
    ensures OffSum(m, i, j, k).Contains(XOff(q, i, j, k))
    decreases i, j, 0, k
  {
    if k > 0 {
      var t := k - 1;
      OffSumContains(m, q, i, j, t);
      EntryContains(m, q, t, t);
      EntryContains(m, q, i, t);
      EntryContains(m, q, j, t);
      OffSumStep(m, q, i, j, k);
    }
  }

  /** The step of OffSumContains, from enclosure of the operands of subtraction k. */
  lemma OffSumStep(m: Matrix, q: RMatrix, i: nat, j: nat, k: nat)
    requires IsSquare(m) && IsSquare(q) && |m| == |q|
    requires 0 < k <= j < i < |m|
    requires OffSum(m, i, j, k - 1).Contains(XOff(q, i, j, k - 1))
    requires Entry(m, k - 1, k - 1).Contains(XEntry(q, k - 1, k - 1))
    requires Entry(m, i, k - 1).Contains(XEntry(q, i, k - 1))
    requires Entry(m, j, k - 1).Contains(XEntry(q, j, k - 1))
    ensures OffSum(m, i, j, k).Contains(XOff(q, i, j, k))
  {
    var t := k - 1;
    var e1, e2, y1, y2 := Entry(m, i, t), Entry(m, j, t), XEntry(q, i, t), XEntry(q, j, t);
    MulContains(e1, e2, y1, y2);
    StepContains(OffSum(m, i, j, k), XOff(q, i, j, k), OffSum(m, i, j, t), Entry(m, t, t), Mul(e1, e2),
      XOff(q, i, j, t), XEntry(q, t, t), y1 * y2);
  }

  lemma {:induction false} DiagSumContains(m: Matrix, q: RMatrix, i: nat, k: nat)
    requires IsSquare(m) && IsSquare(q) && |m| == |q| && MatContains(m, q)
    requires k <= i < |m|
    ensures DiagSum(m, i, k).Contains(XDiag(q, i, k))
    decreases i, i, 0, k
  {
    if k > 0 {
      var t := k - 1;
      DiagSumContains(m, q, i, t);
      EntryContains(m, q, t, t);
      EntryContains(m, q, i, t);
      DiagSumStep(m, q, i, k);
    }
  }

  /** The step of DiagSumContains, from enclosure of the operands of subtraction k. */
  lemma DiagSumStep(m: Matrix, q: RMatrix, i: nat, k: nat)
    requires IsSquare(m) && IsSquare(q) && |m| == |q|
    requires 0 < k <= i < |m|
    requires DiagSum(m, i, k - 1).Contains(XDiag(q, i, k - 1))
    requires Entry(m, k - 1, k - 1).Contains(XEntry(q, k - 1, k - 1))
    requires Entry(m, i, k - 1).Contains(XEntry(q, i, k - 1))
    ensures DiagSum(m, i, k).Contains(XDiag(q, i, k))
  {
    var t := k - 1;
    var e, y := Entry(m, i, t), XEntry(q, i, t);
    SqrContains(e, y);
    StepContains(DiagSum(m, i, k), XDiag(q, i, k), DiagSum(m, i, t), Entry(m, t, t), Sqr(e),
      XDiag(q, i, t), XEntry(q, t, t), y * y);
  }

  // ---------------------------------------------------------------------------
  // The exact factors and the factorisation theorem

  /** Entry (i, j) of the unit lower triangular factor L. */
  function LowerAt(q: RMatrix, i: nat, j: nat): real
    requires IsSquare(q) && i < |q| && j < |q|
  {
    if j < i then XEntry(q, i, j) else if j == i then 1.0 else 0.0
  }

  function LowerFactor(q: RMatrix): (l: RMatrix)
    requires IsSquare(q)
    ensures IsSquare(l) && |l| == |q|
  {
    seq(|q|, i requires 0 <= i < |q| => seq(|q|, j requires 0 <= j < |q| => LowerAt(q, i, j)))
  }

  /** The diagonal factor D. */
  function DiagFactor(q: RMatrix): (d: RMatrix)
    requires IsSquare(q)
    ensures IsSquare(d) && |d| == |q|
  {
    seq(|q|, i requires 0 <= i < |q| =>
      seq(|q|, j requires 0 <= j < |q| => if i == j then XEntry(q, i, i) else 0.0))
  }

  /** The k-th term of (L D L^T)[i][j]. */
  function Term(q: RMatrix, i: nat, j: nat, k: nat): real
    requires IsSquare(q) && i < |q| && j < |q| && k < |q|
  {
    LowerAt(q, i, k) * XEntry(q, k, k) * LowerAt(q, j, k)
  }

  /** The subtractions the recurrence makes, as one sum. */
  lemma {:induction false} XOffSum(q: RMatrix, i: nat, j: nat, k: nat)
    requires IsSquare(q) && k <= j < i < |q|
    ensures XOff(q, i, j, k) == q[i][j] - Sum(seq(k, t requires 0 <= t < k => Term(q, i, j, t)))
  {
    var s := seq(k, t requires 0 <= t < k => Term(q, i, j, t));
    if k > 0 {
      XOffSum(q, i, j, k - 1);
      assert s[..k - 1] == seq(k - 1, t requires 0 <= t < k - 1 => Term(q, i, j, t));
      var t := k - 1;
      assert Term(q, i, j, t) == XEntry(q, t, t) * (XEntry(q, i, t) * XEntry(q, j, t));
    }
  }

  lemma {:induction false} XDiagSum(q: RMatrix, i: nat, k: nat)
    requires IsSquare(q) && k <= i < |q|
    ensures XDiag(q, i, k) == q[i][i] - Sum(seq(k, t requires 0 <= t < k => Term(q, i, i, t)))
  {
    var s := seq(k, t requires 0 <= t < k => Term(q, i, i, t));
    if k > 0 {
      XDiagSum(q, i, k - 1);
      assert s[..k - 1] == seq(k - 1, t requires 0 <= t < k - 1 => Term(q, i, i, t));
      var t := k - 1;
      assert Term(q, i, i, t) == XEntry(q, t, t) * (XEntry(q, i, t) * XEntry(q, i, t));
    }
  }

  /** The diagonal term of row i in column j: the pivot times the multiplier is
      what the recurrence had left before its division. */
  lemma LastTerm(q: RMatrix, i: nat, j: nat)
    requires IsSquare(q) && j <= i < |q|
    requires j < i ==> XEntry(q, j, j) != 0.0
    ensures Term(q, i, j, j) == if j < i then XOff(q, i, j, j) else XDiag(q, i, i)
  {
    var d := XEntry(q, j, j);
    if j < i {
      var o := XOff(q, i, j, j);
      assert XEntry(q, i, j) == o / d;
      assert Term(q, i, j, j) == (o / d) * d * 1.0;
    } else {
      assert Term(q, i, j, j) == 1.0 * d * 1.0;
    }
  }

  /** Columns past j contribute nothing to entry (i, j), since L is lower triangular. */
  lemma TermsPastColumn(q: RMatrix, i: nat, j: nat, s: seq<real>)
    requires IsSquare(q) && j <= i < |q|
    requires s == seq(|q|, k requires 0 <= k < |q| => Term(q, i, j, k))
    ensures forall t :: j + 1 <= t < |s| ==> s[t] == 0.0
  {
    forall t | j + 1 <= t < |s| ensures s[t] == 0.0 {
      assert LowerAt(q, j, t) == 0.0;
      assert s[t] == LowerAt(q, i, t) * XEntry(q, t, t) * 0.0;
    }
  }

  /** On and below the diagonal, the terms of L D L^T add up to the input entry. */
  lemma LowerTermsSum(q: RMatrix, i: nat, j: nat)
    requires IsSquare(q) && j <= i < |q|
    requires j < i ==> XEntry(q, j, j) != 0.0
    ensures Sum(seq(|q|, k requires 0 <= k < |q| => Term(q, i, j, k))) == q[i][j]
  {
    var n := |q|;
    var s := seq(n, k requires 0 <= k < n => Term(q, i, j, k));
    TermsPastColumn(q, i, j, s);
    SumZeroTail(s, j + 1);
    SumSnoc(s, j);
    assert s[..j] == seq(j, t requires 0 <= t < j => Term(q, i, j, t));
    LastTerm(q, i, j);
    if j < i {
      XOffSum(q, i, j, j);
    } else {
      XDiagSum(q, i, i);
    }
  }

  lemma TermSymmetric(q: RMatrix, i: nat, j: nat, k: nat)
    requires IsSquare(q) && i < |q| && j < |q| && k < |q|
    ensures Term(q, i, j, k) == Term(q, j, i, k)
  {}

  /** The pivot-times-column step: (L D)[i][k] == L[i][k] * D[k]. */
  lemma LowerTimesDiag(q: RMatrix, i: nat, k: nat)
    requires IsSquare(q) && i < |q| && k < |q|
    ensures RMatMul(LowerFactor(q), DiagFactor(q))[i][k] == LowerAt(q, i, k) * XEntry(q, k, k)
  {
    var l, d := LowerFactor(q), DiagFactor(q);
    var s := seq(|q|, t requires 0 <= t < |q| => l[i][t] * d[t][k]);
    assert RMatMul(l, d)[i][k] == Sum(s);
    SumSingle(s, k);
  }

  /** Entry (i, j) of L D L^T is the sum of its terms. */
  lemma ProductTerms(q: RMatrix, i: nat, j: nat)
    requires IsSquare(q) && i < |q| && j < |q|
    ensures RMatMul(RMatMul(LowerFactor(q), DiagFactor(q)), Transpose(LowerFactor(q)))[i][j]
         == Sum(seq(|q|, k requires 0 <= k < |q| => Term(q, i, j, k)))
  {
    var n := |q|;
    var l := LowerFactor(q);
    var ld := RMatMul(l, DiagFactor(q));
    var lt := Transpose(l);
    var s1 := seq(n, k requires 0 <= k < n => ld[i][k] * lt[k][j]);
    var s2 := seq(n, k requires 0 <= k < n => Term(q, i, j, k));
    forall k | 0 <= k < n ensures s1[k] == s2[k] {
      LowerTimesDiag(q, i, k);
      assert lt[k][j] == LowerAt(q, j, k);
    }
    assert s1 == s2;
    assert RMatMul(ld, lt)[i][j] == Sum(s1);
  }

  /** The sum of terms is symmetric in i and j. */
  lemma TermsSymmetric(q: RMatrix, i: nat, j: nat)
    requires IsSquare(q) && i < |q| && j < |q|
    ensures Sum(seq(|q|, k requires 0 <= k < |q| => Term(q, i, j, k)))
         == Sum(seq(|q|, k requires 0 <= k < |q| => Term(q, j, i, k)))
  {
    var n := |q|;
    var s1 := seq(n, k requires 0 <= k < n => Term(q, i, j, k));
    var s2 := seq(n, k requires 0 <= k < n => Term(q, j, i, k));
    forall k | 0 <= k < n ensures s1[k] == s2[k] {
      TermSymmetric(q, i, j, k);
    }
    assert s1 == s2;
  }

  lemma ProductEntry(q: RMatrix, i: nat, j: nat)
    requires IsSquare(q) && Symmetric(q) && i < |q| && j < |q|
    requires forall k :: 0 <= k < |q| ==> XEntry(q, k, k) != 0.0
    ensures RMatMul(RMatMul(LowerFactor(q), DiagFactor(q)), Transpose(LowerFactor(q)))[i][j] == q[i][j]
  {
    ProductTerms(q, i, j);
    if j <= i {
      LowerTermsSum(q, i, j);
    } else {
      LowerTermsSum(q, j, i);
      TermsSymmetric(q, i, j);
    }
  }

  /** With nonzero pivots the exact recurrence factors a symmetric matrix:
      L * D * L^T == Q. */
  lemma Factorisation(q: RMatrix)
    requires IsSquare(q) && Symmetric(q)
    requires forall k :: 0 <= k < |q| ==> XEntry(q, k, k) != 0.0
    ensures RMatMul(RMatMul(LowerFactor(q), DiagFactor(q)), Transpose(LowerFactor(q))) == q
  {
    var p := RMatMul(RMatMul(LowerFactor(q), DiagFactor(q)), Transpose(LowerFactor(q)));
    forall i, j | 0 <= i < |q| && 0 <= j < |q| ensures p[i][j] == q[i][j] {
      ProductEntry(q, i, j);
    }
    MatrixExt(p, q);
  }

  // ---------------------------------------------------------------------------
  // Certified pivots, and singular inputs

  /** A certified ball run has strictly positive exact pivots. */
  lemma PivotsPositive(m: Matrix, q: RMatrix)
    requires IsSquare(m) && IsSquare(q) && |m| == |q| && MatContains(m, q) && Certifies(m)
    ensures forall k :: 0 <= k < |q| ==> XEntry(q, k, k) > 0.0
  {
    CertifiesIff(m);
    forall k | 0 <= k < |q| ensures XEntry(q, k, k) > 0.0 {
      EntryContains(m, q, k, k);
      PositiveContains(Entry(m, k, k), XEntry(q, k, k));
    }
  }

  /** A nonzero vector that Q maps to zero: Q is singular. */
  predicate InKernel(q: RMatrix, v: seq<real>)
    requires IsSquare(q)
  {
    && |v| == |q|
    && (exists k :: 0 <= k < |v| && v[k] != 0.0)
    && forall i :: 0 <= i < |q| ==> Dot(q[i], v) == 0.0
  }

  predicate UnitLowerTriangular(l: RMatrix)
    requires IsSquare(l)
  {
    && (forall i :: 0 <= i < |l| ==> l[i][i] == 1.0)
    && (forall i, j :: 0 <= i < j < |l| ==> l[i][j] == 0.0)
  }

  lemma LowerFactorUnit(q: RMatrix)
    requires IsSquare(q)
    ensures UnitLowerTriangular(LowerFactor(q))
  {}

  /** Forward substitution: L g == 0 forces g == 0 on the first i positions. */
  lemma {:induction false} ForwardZero(l: RMatrix, g: seq<real>, i: nat)
    requires IsSquare(l) && UnitLowerTriangular(l) && |g| == |l| && i <= |l|
    requires forall r :: 0 <= r < |l| ==> Dot(l[r], g) == 0.0
    ensures forall k :: 0 <= k < i ==> g[k] == 0.0
  {
    if i > 0 {
      var r := i - 1;
      ForwardZero(l, g, r);
      var s := seq(|l|, k requires 0 <= k < |l| => l[r][k] * g[k]);
      SumSingle(s, r);
    }
  }

  /** Back substitution: L^T v == 0 forces v == 0 from position i on. */
  lemma {:induction false} BackwardZero(l: RMatrix, v: seq<real>, i: nat)
    requires IsSquare(l) && UnitLowerTriangular(l) && |v| == |l| && i <= |l|
    requires forall k :: 0 <= k < |l| ==> Dot(Column(l, k), v) == 0.0
    ensures forall j :: i <= j < |l| ==> v[j] == 0.0
    decreases |l| - i
  {
    if i < |l| {
      BackwardZero(l, v, i + 1);
      var c := Column(l, i);
      var s := seq(|l|, j requires 0 <= j < |l| => c[j] * v[j]);
      SumSingle(s, i);
    }
  }

  /** The exact pivots, the diagonal of D. */
  function Pivots(q: RMatrix): (d: seq<real>)
    requires IsSquare(q)
    ensures |d| == |q| && forall k :: 0 <= k < |q| ==> d[k] == XEntry(q, k, k)
  {
    seq(|q|, k requires 0 <= k < |q| => XEntry(q, k, k))
  }

  /** D (L^T v), the vector L is applied to in Q v == L (D (L^T v)). */
  function Scaled(q: RMatrix, v: seq<real>): (g: seq<real>)
    requires IsSquare(q) && |v| == |q|
    ensures |g| == |q|
  {
    DiagTimes(LowerFactor(q), Pivots(q), v)
  }

  /** Each entry of Q as the sum of its L D L^T terms. */
  lemma EntryAsTerms(q: RMatrix, i: nat, j: nat)
    requires IsSquare(q) && Symmetric(q) && i < |q| && j < |q|
    requires forall k :: 0 <= k < |q| ==> XEntry(q, k, k) != 0.0
    ensures q[i][j] == Sum(seq(|q|, k requires 0 <= k < |q| => Term(q, i, j, k)))
  {
    ProductTerms(q, i, j);
    ProductEntry(q, i, j);
  }

  /** The table of the terms of (Q v)[i], row j, column k: (L[i][k] D[k]) (L[j][k] v[j]). */
  function Table(q: RMatrix, v: seq<real>, i: nat): (f: seq<seq<real>>)
    requires IsSquare(q) && |v| == |q| && i < |q|
    ensures |f| == |q| && forall j :: 0 <= j < |f| ==> |f[j]| == |q|
  {
    LdlTable(LowerFactor(q), Pivots(q), v, i)
  }

  /** The terms of row i of Q, one row per j. */
  function TermTable(q: RMatrix, i: nat): (t: seq<seq<real>>)
    requires IsSquare(q) && i < |q|
    ensures |t| == |q| && forall j :: 0 <= j < |t| ==> |t[j]| == |q|
  {
    seq(|q|, j requires 0 <= j < |q| => seq(|q|, k requires 0 <= k < |q| => Term(q, i, j, k)))
  }

  lemma TableEntry(q: RMatrix, v: seq<real>, i: nat, j: nat, k: nat)
    requires IsSquare(q) && |v| == |q| && i < |q| && j < |q| && k < |q|
    ensures Table(q, v, i)[j][k] == TermTable(q, i)[j][k] * v[j]
  {
    Assoc(LowerAt(q, i, k) * XEntry(q, k, k), LowerAt(q, j, k), v[j]);
  }

  lemma TableScaled(q: RMatrix, v: seq<real>, i: nat)
    requires IsSquare(q) && |v| == |q| && i < |q|
    ensures ScaledRows(Table(q, v, i), TermTable(q, i), v)
  {
    forall j, k | 0 <= j < |q| && 0 <= k < |q|
      ensures Table(q, v, i)[j][k] == TermTable(q, i)[j][k] * v[j]
    {
      TableEntry(q, v, i, j, k);
    }
  }

  lemma TermTableSums(q: RMatrix, i: nat)
    requires IsSquare(q) && Symmetric(q) && i < |q|
    requires forall k :: 0 <= k < |q| ==> XEntry(q, k, k) != 0.0
    ensures RowsSumTo(TermTable(q, i), q[i])
  {
    forall j | 0 <= j < |q| ensures Sum(TermTable(q, i)[j]) == q[i][j] {
      EntryAsTerms(q, i, j);
      assert TermTable(q, i)[j] == seq(|q|, k requires 0 <= k < |q| => Term(q, i, j, k));
    }
  }

  lemma TableRows(q: RMatrix, v: seq<real>, i: nat)
    requires IsSquare(q) && Symmetric(q) && |v| == |q| && i < |q|
    requires forall k :: 0 <= k < |q| ==> XEntry(q, k, k) != 0.0
    ensures Sum(RowSums(Table(q, v, i))) == Dot(q[i], v)
  {
    TableScaled(q, v, i);
    TermTableSums(q, i);
    RowSumsScaled(Table(q, v, i), TermTable(q, i), v, q[i]);
  }

  lemma TableColumns(q: RMatrix, v: seq<real>, i: nat)
    requires IsSquare(q) && |v| == |q| && i < |q|
    ensures Sum(ColSums(Table(q, v, i), |q|)) == Dot(LowerFactor(q)[i], Scaled(q, v))
  {
    LdlTableColumns(LowerFactor(q), Pivots(q), v, i);
  }

  /** Row i of Q v, regrouped as row i of L (D (L^T v)). */
  lemma RowTimesVector(q: RMatrix, v: seq<real>, i: nat)
    requires IsSquare(q) && Symmetric(q) && |v| == |q| && i < |q|
    requires forall k :: 0 <= k < |q| ==> XEntry(q, k, k) != 0.0
    ensures Dot(q[i], v) == Dot(LowerFactor(q)[i], Scaled(q, v))
  {
    TableRows(q, v, i);
    TableColumns(q, v, i);
    SumSwap(Table(q, v, i), |q|);
  }

  /** A certified run encloses only invertible symmetric matrices: the kernel is trivial. */
  lemma CertifiedKernelTrivial(m: Matrix, q: RMatrix, v: seq<real>)
    requires IsSquare(m) && IsSquare(q) && |m| == |q| && Symmetric(q) && MatContains(m, q)
    requires |v| == |q| && forall i :: 0 <= i < |q| ==> Dot(q[i], v) == 0.0
    ensures Certifies(m) ==> forall k :: 0 <= k < |v| ==> v[k] == 0.0
  {
    if Certifies(m) {
      var n := |q|;
      var l := LowerFactor(q);
      var g := Scaled(q, v);
      PivotsPositive(m, q);
      forall i | 0 <= i < n ensures Dot(l[i], g) == 0.0 {
        RowTimesVector(q, v, i);
      }
      LowerFactorUnit(q);
      ForwardZero(l, g, n);
      forall k | 0 <= k < n ensures Dot(Column(l, k), v) == 0.0 {
        assert g[k] == XEntry(q, k, k) * Dot(Column(l, k), v) == 0.0;
      }
      BackwardZero(l, v, 0);
    }
  }

  /** L^T v == 0 only for v == 0, L unit lower triangular. */
  lemma LowerTimesTrivial(l: RMatrix, v: seq<real>)
    requires IsSquare(l) && UnitLowerTriangular(l) && |v| == |l|
    ensures (forall k :: 0 <= k < |l| ==> LowerTimes(l, v)[k] == 0.0) ==> forall j :: 0 <= j < |v| ==> v[j] == 0.0
  {
    if forall k :: 0 <= k < |l| ==> LowerTimes(l, v)[k] == 0.0 {
      forall k | 0 <= k < |l| ensures Dot(Column(l, k), v) == 0.0 {
        assert LowerTimes(l, v)[k] == Dot(Column(l, k), v);
      }
      BackwardZero(l, v, 0);
    }
  }

  /** The quadratic form of Q is that of L D L^T: v^T Q v == sum of D[k] (L^T v)[k]^2. */
  lemma QuadraticAsSquares(q: RMatrix, v: seq<real>)
    requires IsSquare(q) && Symmetric(q) && |v| == |q|
    requires forall k :: 0 <= k < |q| ==> XEntry(q, k, k) != 0.0
    ensures Quadratic(q, v) == Sum(SquareTerms(LowerFactor(q), Pivots(q), v))
  {
    var l, d := LowerFactor(q), Pivots(q);
    forall i | 0 <= i < |q| ensures Dot(q[i], v) == Dot(l[i], DiagTimes(l, d, v)) {
      RowTimesVector(q, v, i);
    }
    FormFromRows(q, l, d, v);
  }

  /** A certified run encloses only positive definite symmetric matrices: v^T Q v > 0
      for every nonzero v. */
  lemma CertifiedPositiveDefinite(m: Matrix, q: RMatrix, v: seq<real>)
    requires IsSquare(m) && IsSquare(q) && |m| == |q| && Symmetric(q) && MatContains(m, q)
    requires Certifies(m)
    requires |v| == |q| && exists j :: 0 <= j < |v| && v[j] != 0.0
    ensures Quadratic(q, v) > 0.0
  {
    var l, d := LowerFactor(q), Pivots(q);
    var t := SquareTerms(l, d, v);
    var w := LowerTimes(l, v);
    assert forall k :: 0 <= k < |q| ==> d[k] > 0.0 by {
      PivotsPositive(m, q);
    }
    assert Quadratic(q, v) == Sum(t) by {
      QuadraticAsSquares(q, v);
    }
    assert exists k :: 0 <= k < |l| && w[k] != 0.0 by {
      LowerFactorUnit(q);
      LowerTimesTrivial(l, v);
    }
    var k :| 0 <= k < |l| && w[k] != 0.0;
    SquareTermsPositive(l, d, v, k);
  }

  /** A ball matrix enclosing a singular symmetric matrix is never certified. */
  lemma SingularNeverCertifies(m: Matrix, q: RMatrix, v: seq<real>)
    requires IsSquare(m) && IsSquare(q) && |m| == |q| && Symmetric(q) && MatContains(m, q)
    requires InKernel(q, v)
    ensures !Certifies(m)
  {
    CertifiedKernelTrivial(m, q, v);
  }
}
