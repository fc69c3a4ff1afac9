/** The driver in arb_mat/test/t-ldl.c: the special matrices, the symmetric inputs R R^T,
    the precision escalation, and the unpacking of the packed factor into L, D and U = L^T
    whose product must enclose the exact input. */
module LdlTest {
  import opened Balls
  import opened Matrices
  import opened Ldl
  import opened ExactLdl

  // ---------------------------------------------------------------------------
  // Matrix helpers the test calls

  /** arb_mat_zero. */
  method SetZero(a: array2<Ball>)
    requires a.Length0 == a.Length1
    modifies a
    ensures Rows(a) == ZeroMatrix(a.Length0)
  {
    var n := a.Length0;
    var i := 0;
    while i < n
      invariant 0 <= i <= n
      invariant forall r, c :: 0 <= r < i && 0 <= c < n ==> a[r, c] == Zero
    {
      var j := 0;
      while j < n
        invariant 0 <= j <= n
        invariant forall r, c :: 0 <= r < n && 0 <= c < n && (r < i || (r == i && c < j)) ==> a[r, c] == Zero
      {
        a[i, j] := Zero;
        j := j + 1;
      }
      i := i + 1;
    }
    RowsSquare(a);
    MatrixExt(Rows(a), ZeroMatrix(n));
  }

  /** arb_mat_one. */
  method SetOne(a: array2<Ball>)
    requires a.Length0 == a.Length1
    modifies a
    ensures Rows(a) == Identity(a.Length0)
  {
    var n := a.Length0;
    var i := 0;
    while i < n
      invariant 0 <= i <= n
      invariant forall r, c :: 0 <= r < i && 0 <= c < n ==> a[r, c] == if r == c then One else Zero
    {
      var j := 0;
      while j < n
        invariant 0 <= j <= n
        invariant forall r, c :: 0 <= r < n && 0 <= c < n && (r < i || (r == i && c < j)) ==>
          a[r, c] == if r == c then One else Zero
      {
        a[i, j] := if i == j then One else Zero;
        j := j + 1;
      }
      i := i + 1;
    }
    RowsSquare(a);
    MatrixExt(Rows(a), Identity(n));
  }

  /** arb_mat_neg(A, A). */
  method Negate(a: array2<Ball>)
    requires a.Length0 == a.Length1
    modifies a
    ensures IsSquare(old(Rows(a)))
    ensures Rows(a) == NegMatrix(old(Rows(a)))
  {
    ghost var m0 := Rows(a);
    RowsSquare(a);
    var n := a.Length0;
    var i := 0;
    while i < n
      invariant 0 <= i <= n
      invariant forall r, c :: 0 <= r < n && 0 <= c < n ==> a[r, c] == if r < i then Neg(m0[r][c]) else m0[r][c]
    {
      var j := 0;
      while j < n
        invariant 0 <= j <= n
        invariant forall r, c :: 0 <= r < n && 0 <= c < n ==>
          a[r, c] == if r < i || (r == i && c < j) then Neg(m0[r][c]) else m0[r][c]
      {
        a[i, j] := Neg(a[i, j]);
        j := j + 1;
      }
      i := i + 1;
    }
    MatrixExt(Rows(a), NegMatrix(m0));
  }

  /** arb_mat_transpose into a separate matrix. */
  method TransposeInto(u: array2<Ball>, l: array2<Ball>)
    requires l.Length0 == l.Length1 && u.Length0 == u.Length1 == l.Length0 && u != l
    modifies u
    ensures IsSquare(Rows(l))
    ensures Rows(u) == Transpose(Rows(l))
  {
    var n := l.Length0;
    var i := 0;
    while i < n
      invariant 0 <= i <= n
      invariant forall r, c :: 0 <= r < i && 0 <= c < n ==> u[r, c] == l[c, r]
    {
      var j := 0;
      while j < n
        invariant 0 <= j <= n
        invariant forall r, c :: 0 <= r < n && 0 <= c < n && (r < i || (r == i && c < j)) ==> u[r, c] == l[c, r]
      {
        u[i, j] := l[j, i];
        j := j + 1;
      }
      i := i + 1;
    }
    RowsSquare(l);
    RowsSquare(u);
    MatrixExt(Rows(u), Transpose(Rows(l)));
  }

  /** arb_mat_equal: same dimensions and identical balls (midpoint and radius). */
  method Equal(a: array2<Ball>, b: array2<Ball>) returns (eq: bool)
    ensures eq == (a.Length0 == b.Length0 && a.Length1 == b.Length1 && Rows(a) == Rows(b))
  {
    if a.Length0 != b.Length0 || a.Length1 != b.Length1 {
      return false;
    }
    var i := 0;
    while i < a.Length0
      invariant 0 <= i <= a.Length0
      invariant forall r, c :: 0 <= r < i && 0 <= c < a.Length1 ==> a[r, c] == b[r, c]
    {
      var j := 0;
      while j < a.Length1
        invariant 0 <= j <= a.Length1
        invariant forall r, c :: 0 <= r < i && 0 <= c < a.Length1 ==> a[r, c] == b[r, c]
        invariant forall c :: 0 <= c < j ==> a[i, c] == b[i, c]
      {
        if a[i, j] != b[i, j] {
          assert Rows(a)[i][j] != Rows(b)[i][j];
          return false;
        }
        j := j + 1;
      }
      i := i + 1;
    }
    forall r | 0 <= r < a.Length0 ensures Rows(a)[r] == Rows(b)[r] {
    }
    return true;
  }

  // ---------------------------------------------------------------------------
  // Inputs

  /** _fmpq_mat_randtest_positive_semidefinite: Q = R * R^T. */
  function Gram(r: RMatrix): (q: RMatrix)
    requires IsSquare(r)
    ensures IsSquare(q) && |q| == |r|
  {
    RMatMul(r, Transpose(r))
  }

  lemma GramSymmetric(r: RMatrix)
    requires IsSquare(r)
    ensures Symmetric(Gram(r))
  {
    var n := |r|;
    var rt := Transpose(r);
    forall i, j | 0 <= i < n && 0 <= j < n ensures Gram(r)[i][j] == Gram(r)[j][i] {
      var s1 := seq(n, k requires 0 <= k < n => r[i][k] * rt[k][j]);
      var s2 := seq(n, k requires 0 <= k < n => r[j][k] * rt[k][i]);
      forall k | 0 <= k < n ensures s1[k] == s2[k] {
        assert rt[k][j] == r[j][k] && rt[k][i] == r[i][k];
      }
      assert s1 == s2;
      assert Gram(r)[i][j] == Sum(s1) && Gram(r)[j][i] == Sum(s2);
    }
  }

  /** The weights of R R^T seen as L D L^T with L = R and D = I. */
  function UnitWeights(n: nat): (e: seq<real>)
    ensures |e| == n && forall k :: 0 <= k < n ==> e[k] == 1.0
  {
    seq(n, k => 1.0)
  }

  /** Entry (i, j) of R R^T is the dot product of rows i and j of R. */
  lemma GramEntry(r: RMatrix, i: nat, j: nat)
    requires IsSquare(r) && i < |r| && j < |r|
    ensures Gram(r)[i][j] == Dot(r[i], r[j])
  {
    var n := |r|;
    var rt := Transpose(r);
    var s := seq(n, k requires 0 <= k < n => r[i][k] * rt[k][j]);
    forall k | 0 <= k < n ensures s[k] == r[i][k] * r[j][k] {
      assert rt[k][j] == r[j][k];
    }
    DotOf(r[i], r[j], s);
  }

  /** Row i of R R^T acts on v as row i of R acts on R^T v. */
  lemma GramRow(r: RMatrix, v: seq<real>, i: nat)
    requires IsSquare(r) && |v| == |r| && i < |r|
    ensures Dot(Gram(r)[i], v) == Dot(r[i], DiagTimes(r, UnitWeights(|r|), v))
  {
    var n := |r|;
    var e := UnitWeights(n);
    var f := LdlTable(r, e, v, i);
    var q := Gram(r);
    forall j | 0 <= j < n ensures RowSums(f)[j] == q[i][j] * v[j] {
      forall k | 0 <= k < n ensures f[j][k] == v[j] * (r[i][k] * r[j][k]) {
        assert f[j][k] == (r[i][k] * 1.0) * (r[j][k] * v[j]);
      }
      DotScale(r[i], r[j], f[j], v[j]);
      GramEntry(r, i, j);
    }
    DotOf(q[i], v, RowSums(f));
    SumSwap(f, n);
    LdlTableColumns(r, e, v, i);
  }

  /** R R^T is positive semidefinite: v^T (R R^T) v is a sum of squares. */
  lemma GramPositiveSemidefinite(r: RMatrix, v: seq<real>)
    requires IsSquare(r) && |v| == |r|
    ensures Quadratic(Gram(r), v) >= 0.0
  {
    var e := UnitWeights(|r|);
    forall i | 0 <= i < |r| ensures Dot(Gram(r)[i], v) == Dot(r[i], DiagTimes(r, e, v)) {
      GramRow(r, v, i);
    }
    FormFromRows(Gram(r), r, e, v);
    SquareTermsNonNeg(r, e, v);
  }

  /** arb_set_fmpq at a precision is sound when the ball it yields contains the number. */
  ghost predicate SoundRounding(round: (real, nat) -> Ball) {
    forall x: real, p: nat :: round(x, p).Contains(x)
  }

  /** arb_mat_set_fmpq_mat, entry by entry. */
  function RoundMatrix(q: RMatrix, p: nat, round: (real, nat) -> Ball): (m: Matrix)
    requires IsSquare(q)
    ensures IsSquare(m) && |m| == |q|
  {
    seq(|q|, i requires 0 <= i < |q| => seq(|q|, j requires 0 <= j < |q| => round(q[i][j], p)))
  }

  lemma RoundContains(q: RMatrix, p: nat, round: (real, nat) -> Ball)
    requires IsSquare(q) && SoundRounding(round)
    ensures MatContains(RoundMatrix(q, p, round), q)
  {}

  method SetFromExact(a: array2<Ball>, q: RMatrix, p: nat, round: (real, nat) -> Ball)
    requires IsSquare(q) && a.Length0 == a.Length1 == |q|
    modifies a
    ensures Rows(a) == RoundMatrix(q, p, round)
  {
    var n := a.Length0;
    var i := 0;
    while i < n
      invariant 0 <= i <= n
      invariant forall r, c :: 0 <= r < i && 0 <= c < n ==> a[r, c] == round(q[r][c], p)
    {
      var j := 0;
      while j < n
        invariant 0 <= j <= n
        invariant forall r, c :: 0 <= r < n && 0 <= c < n && (r < i || (r == i && c < j)) ==>
          a[r, c] == round(q[r][c], p)
      {
        a[i, j] := round(q[i][j], p);
        j := j + 1;
      }
      i := i + 1;
    }
    RowsSquare(a);
    MatrixExt(Rows(a), RoundMatrix(q, p, round));
  }

  // ---------------------------------------------------------------------------
  // Precision escalation

  /** The precision above which the test gives up. */
  const MaxPrec: nat := 10000

  datatype Outcome = Certified(prec: nat) | Diverged(prec: nat)

  /** The outcome of the escalation loop started at precision p. */
  function Escalation(q: RMatrix, p: nat, round: (real, nat) -> Ball): Outcome
    requires IsSquare(q) && 1 <= p
    decreases if p <= MaxPrec then MaxPrec + 1 - p else 0
  {
    if Certifies(RoundMatrix(q, p, round)) then Certified(p)
    else if p > MaxPrec then Diverged(p)
    else Escalation(q, 2 * p, round)
  }

  function Pow2(t: nat): (r: nat)
    ensures r >= 1
  {
    if t == 0 then 1 else 2 * Pow2(t - 1)
  }

  /** The precision after s doublings of p, that is p * 2^s. */
  function Doubled(p: nat, s: nat): nat {
    if s == 0 then p else 2 * Doubled(p, s - 1)
  }

  lemma {:induction false} DoubledShift(p: nat, s: nat)
    ensures Doubled(2 * p, s) == Doubled(p, s + 1)
  {
    if s > 0 {
      DoubledShift(p, s - 1);
    }
  }

  lemma {:induction false} DoubledAtLeast(p: nat, s: nat)
    requires 1 <= p
    ensures Doubled(p, s) >= Pow2(s)
  {
    if s > 0 {
      DoubledAtLeast(p, s - 1);
    }
  }

  lemma {:induction false} Pow2Mono(s: nat, t: nat)
    requires s <= t
    ensures Pow2(s) <= Pow2(t)
    decreases t
  {
    if s < t {
      Pow2Mono(s, t - 1);
    }
  }

  /** Fourteen doublings of any positive precision exceed MaxPrec. */
  lemma DoubledExceeds(p: nat, s: nat)
    requires 1 <= p
    ensures s >= 14 ==> Doubled(p, s) > MaxPrec
  {
    if s >= 14 {
      DoubledAtLeast(p, s);
      Pow2Mono(14, s);
      assert Pow2(14) == 16384;
    }
  }

  /** The run of the loop: after t doublings it stops, every earlier attempt was at a
      precision of at most MaxPrec and failed, and the last attempt decides the outcome. */
  lemma {:induction false} EscalationTrace(q: RMatrix, p: nat, round: (real, nat) -> Ball) returns (t: nat)
    requires IsSquare(q) && 1 <= p
    ensures Escalation(q, p, round).prec == Doubled(p, t)
    ensures forall s :: 0 <= s < t ==>
      Doubled(p, s) <= MaxPrec && !Certifies(RoundMatrix(q, Doubled(p, s), round))
    ensures Escalation(q, p, round).Certified? == Certifies(RoundMatrix(q, Doubled(p, t), round))
    ensures Escalation(q, p, round).Diverged? ==> Doubled(p, t) > MaxPrec
    decreases if p <= MaxPrec then MaxPrec + 1 - p else 0
  {
    if Certifies(RoundMatrix(q, p, round)) || p > MaxPrec {
      t := 0;
    } else {
      var t' := EscalationTrace(q, 2 * p, round);
      t := t' + 1;
      DoubledShift(p, t');
      forall s | 0 <= s < t
        ensures Doubled(p, s) <= MaxPrec && !Certifies(RoundMatrix(q, Doubled(p, s), round))
      {
        if s > 0 {
          DoubledShift(p, s - 1);
        }
      }
    }
  }

  /** The loop makes at most 15 attempts. */
  lemma EscalationAttempts(q: RMatrix, p: nat, round: (real, nat) -> Ball) returns (t: nat)
    requires IsSquare(q) && 1 <= p
    ensures Escalation(q, p, round).prec == Doubled(p, t)
    ensures t <= 14
  {
    t := EscalationTrace(q, p, round);
    if t > 0 {
      DoubledExceeds(p, t - 1);
    }
  }

  /** The while loop of the test: re-round Q at the current precision, try the
      factorisation, stop on success, give up above MaxPrec, double otherwise. */
  method Escalate(a: array2<Ball>, l: array2<Ball>, q: RMatrix, prec0: nat, round: (real, nat) -> Ball)
    returns (outcome: Outcome)
    requires IsSquare(q) && a.Length0 == a.Length1 == |q| && l.Length0 == l.Length1 == |q| && a != l
    requires 1 <= prec0
    modifies a, l
    ensures outcome == Escalation(q, prec0, round)
    ensures outcome.Certified? == Certifies(RoundMatrix(q, outcome.prec, round))
    ensures Rows(a) == RoundMatrix(q, outcome.prec, round)
    ensures Rows(l) == Packed(RoundMatrix(q, outcome.prec, round))
  {
    var prec := prec0;
    while true
      invariant 1 <= prec
      invariant Escalation(q, prec, round) == Escalation(q, prec0, round)
      decreases if prec <= MaxPrec then MaxPrec + 1 - prec else 0
    {
      SetFromExact(a, q, prec, round);
      var certified := ArbMatLdl(l, a, prec);
      if certified {
        return Certified(prec);
      }
      if prec > MaxPrec {
        return Diverged(prec);
      }
      prec := 2 * prec;
    }
  }

  // ---------------------------------------------------------------------------
  // Unpacking and reconstruction

  /** The packed factor with its diagonal replaced by ones: the unit lower factor L. */
  function UnitLower(p: Matrix): (l: Matrix)
    requires IsSquare(p)
    ensures IsSquare(l) && |l| == |p|
  {
    seq(|p|, i requires 0 <= i < |p| => seq(|p|, j requires 0 <= j < |p| => if i == j then One else p[i][j]))
  }

  /** The diagonal of the packed factor: D. */
  function DiagPart(p: Matrix): (d: Matrix)
    requires IsSquare(p)
    ensures IsSquare(d) && |d| == |p|
  {
    seq(|p|, i requires 0 <= i < |p| => seq(|p|, j requires 0 <= j < |p| => if i == j then p[i][i] else Zero))
  }

  /** T = L * D * U with U = L^T, as the test multiplies it out with arb_mat_mul. */
  function Reconstruct(p: Matrix): (t: Matrix)
    requires IsSquare(p)
    ensures IsSquare(t) && |t| == |p|
  {
    MatMul(MatMul(UnitLower(p), DiagPart(p)), Transpose(UnitLower(p)))
  }

  /** The unpacking loop: D gets the diagonal of L, U = L^T, and both L and U get a unit
      diagonal. */
  method Unpack(l: array2<Ball>, d: array2<Ball>, u: array2<Ball>)
    requires l.Length0 == l.Length1
    requires d.Length0 == d.Length1 == l.Length0 && u.Length0 == u.Length1 == l.Length0
    requires l != d && l != u && d != u
    modifies l, d, u
    ensures IsSquare(old(Rows(l)))
    ensures Rows(l) == UnitLower(old(Rows(l)))
    ensures Rows(d) == DiagPart(old(Rows(l)))
    ensures Rows(u) == Transpose(UnitLower(old(Rows(l))))
  {
    ghost var p := Rows(l);
    RowsSquare(l);
    SetZero(d);
    TransposeInto(u, l);
    MoveDiagonal(l, d, u, p);
    RowsSquare(d);
    RowsSquare(u);
    MatrixExt(Rows(l), UnitLower(p));
    MatrixExt(Rows(d), DiagPart(p));
    MatrixExt(Rows(u), Transpose(UnitLower(p)));
  }

  /** L after the first i steps of the unpacking: ones on the first i diagonal entries. */
  ghost predicate LowerMoved(l: array2<Ball>, p: Matrix, i: nat)
    requires IsSquare(p) && l.Length0 == l.Length1 == |p|
    reads l
  {
    forall r, c :: 0 <= r < |p| && 0 <= c < |p| ==> l[r, c] == (if r == c && r < i then One else p[r][c])
  }

  /** D after the first i steps: the first i diagonal entries of the packed factor. */
  ghost predicate DiagMoved(d: array2<Ball>, p: Matrix, i: nat)
    requires IsSquare(p) && d.Length0 == d.Length1 == |p|
    reads d
  {
    forall r, c :: 0 <= r < |p| && 0 <= c < |p| ==> d[r, c] == (if r == c && r < i then p[r][r] else Zero)
  }

  /** U after the first i steps: the transpose with ones on the first i diagonal entries. */
  ghost predicate UpperMoved(u: array2<Ball>, p: Matrix, i: nat)
    requires IsSquare(p) && u.Length0 == u.Length1 == |p|
    reads u
  {
    forall r, c :: 0 <= r < |p| && 0 <= c < |p| ==> u[r, c] == (if r == c && r < i then One else p[c][r])
  }

  /** The loop of the unpacking: the diagonal of L moves to D, and L and U get ones there. */
  method MoveDiagonal(l: array2<Ball>, d: array2<Ball>, u: array2<Ball>, ghost p: Matrix)
    requires IsSquare(p) && l.Length0 == l.Length1 == |p|
    requires d.Length0 == d.Length1 == |p| && u.Length0 == u.Length1 == |p|
    requires l != d && l != u && d != u
    requires Rows(l) == p && Rows(d) == ZeroMatrix(|p|) && Rows(u) == Transpose(p)
    modifies l, d, u
    ensures LowerMoved(l, p, |p|) && DiagMoved(d, p, |p|) && UpperMoved(u, p, |p|)
  {
    var n := l.Length0;
    var i := 0;
    while i < n
      invariant 0 <= i <= n
      invariant LowerMoved(l, p, i) && DiagMoved(d, p, i) && UpperMoved(u, p, i)
    {
      assert l[i, i] == p[i][i];
      d[i, i] := l[i, i];
      assert DiagMoved(d, p, i + 1);
      l[i, i] := One;
      assert LowerMoved(l, p, i + 1);
      u[i, i] := One;
      assert UpperMoved(u, p, i + 1);
      i := i + 1;
    }
  }

  lemma UnitLowerContains(m: Matrix, q: RMatrix)
    requires IsSquare(m) && IsSquare(q) && |m| == |q| && MatContains(m, q) && Certifies(m)
    ensures MatContains(UnitLower(Packed(m)), LowerFactor(q))
  {
    forall i, j | 0 <= i < |q| && 0 <= j < |q| && j < i
      ensures UnitLower(Packed(m))[i][j].Contains(LowerFactor(q)[i][j])
    {
      EntryContains(m, q, i, j);
    }
  }

  lemma DiagPartContains(m: Matrix, q: RMatrix)
    requires IsSquare(m) && IsSquare(q) && |m| == |q| && MatContains(m, q) && Certifies(m)
    ensures MatContains(DiagPart(Packed(m)), DiagFactor(q))
  {
    forall i | 0 <= i < |q| ensures DiagPart(Packed(m))[i][i].Contains(DiagFactor(q)[i][i]) {
      EntryContains(m, q, i, i);
    }
  }

  /** After success, L * D * U encloses the exact symmetric matrix that the factored ball
      matrix encloses. */
  lemma DecompositionContains(q: RMatrix, m: Matrix)
    requires IsSquare(q) && IsSquare(m) && |q| == |m| && Symmetric(q)
    requires MatContains(m, q) && Certifies(m)
    ensures MatContains(Reconstruct(Packed(m)), q)
  {
    var p := Packed(m);
    UnitLowerContains(m, q);
    DiagPartContains(m, q);
    TransposeContains(UnitLower(p), LowerFactor(q));
    MatMulContains(UnitLower(p), DiagPart(p), LowerFactor(q), DiagFactor(q));
    MatMulContains(MatMul(UnitLower(p), DiagPart(p)), Transpose(UnitLower(p)),
      RMatMul(LowerFactor(q), DiagFactor(q)), Transpose(LowerFactor(q)));
    PivotsPositive(m, q);
    Factorisation(q);
  }

  // ---------------------------------------------------------------------------
  // Special matrices

  lemma ZeroNeverCertifies(n: nat)
    requires 1 <= n
    ensures !Certifies(ZeroMatrix(n))
  {
    assert Entry(ZeroMatrix(n), 0, 0) == Zero;
  }

  lemma NegIdentityNeverCertifies(n: nat)
    requires 1 <= n
    ensures !Certifies(NegMatrix(Identity(n)))
  {
    assert Entry(NegMatrix(Identity(n)), 0, 0) == Ball(-1.0, 0.0);
  }

  lemma {:induction false} IdentityEntry(n: nat, i: nat, j: nat)
    requires j <= i < n
    ensures Entry(Identity(n), i, j) == if i == j then One else Zero
    decreases i, j, 1, 0
  {
    if j < i {
      IdentityOffSum(n, i, j, j);
      IdentityEntry(n, j, j);
      ZeroOverOne();
    } else {
      IdentityDiagSum(n, i, i);
    }
  }

  /** One subtraction step of an off-diagonal entry whose factors are exact units. */
  lemma OffSumStepZero(e: Matrix, i: nat, j: nat, k: nat)
    requires IsSquare(e) && 0 < k <= j < i < |e|
    requires OffSum(e, i, j, k - 1).Ball?
    requires Entry(e, k - 1, k - 1).Ball? && Entry(e, k - 1, k - 1).rad == 0.0
    requires Entry(e, i, k - 1).Ball? && Entry(e, i, k - 1).mid == 0.0 && Entry(e, i, k - 1).rad == 0.0
    requires Entry(e, j, k - 1).Ball? && Entry(e, j, k - 1).rad == 0.0
    ensures OffSum(e, i, j, k) == OffSum(e, i, j, k - 1)
  {
    var x, y, w := Entry(e, k - 1, k - 1), Entry(e, i, k - 1), Entry(e, j, k - 1);
    MulExactZero(y, w);
    SubMulExactZero(OffSum(e, i, j, k - 1), x, Mul(y, w));
  }

  lemma {:induction false} IdentityOffSum(n: nat, i: nat, j: nat, k: nat)
    requires k <= j < i < n
    ensures OffSum(Identity(n), i, j, k) == Zero
    decreases i, j, 0, k
  {
    var e := Identity(n);
    if k == 0 {
      assert e[i][j] == Zero;
    } else {
      IdentityOffSum(n, i, j, k - 1);
      IdentityEntry(n, k - 1, k - 1);
      IdentityEntry(n, i, k - 1);
      IdentityEntry(n, j, k - 1);
      OffSumStepZero(e, i, j, k);
    }
  }

  lemma {:induction false} IdentityDiagSum(n: nat, i: nat, k: nat)
    requires k <= i < n
    ensures DiagSum(Identity(n), i, k) == One
    decreases i, i, 0, k
  {
    if k > 0 {
      var e := Identity(n);
      IdentityDiagSum(n, i, k - 1);
      IdentityEntry(n, k - 1, k - 1);
      IdentityEntry(n, i, k - 1);
      var x, y := Entry(e, k - 1, k - 1), Entry(e, i, k - 1);
      MulExactZero(y, y);
      SubMulExactZero(DiagSum(e, i, k - 1), x, Sqr(y));
    }
  }

  /** The identity certifies and its packed factor is the identity itself. */
  lemma IdentityCertifies(n: nat)
    ensures Certifies(Identity(n))
    ensures Packed(Identity(n)) == Identity(n)
  {
    var e := Identity(n);
    forall i | 0 <= i < n ensures Entry(e, i, i).IsPositive() {
      IdentityEntry(n, i, i);
    }
    CertifiesIff(e);
    forall i, j | 0 <= i < n && 0 <= j < n ensures Packed(e)[i][j] == e[i][j] {
      if j <= i {
        IdentityEntry(n, i, j);
      }
    }
    MatrixExt(Packed(e), e);
  }

  function Failure(failed: bool): nat {
    if failed then 1 else 0
  }

  /** One precision of the special-matrix block for n x n matrices: the zero matrix and
      the negated identity are not certified, the identity is, with L equal to the input. */
  method CheckSpecialAt(l: array2<Ball>, a: array2<Ball>, prec: nat) returns (failures: nat)
    requires 1 <= a.Length0 == a.Length1 && l.Length0 == l.Length1 == a.Length0 && l != a
    modifies l, a
    ensures failures == 0
  {
    var n := a.Length0;
    var result: bool;

    SetZero(a);
    result := ArbMatLdl(l, a, prec);
    ZeroNeverCertifies(n);
    failures := Failure(result);

    SetOne(a);
    Negate(a);
    result := ArbMatLdl(l, a, prec);
    NegIdentityNeverCertifies(n);
    failures := failures + Failure(result);

    SetOne(a);
    result := ArbMatLdl(l, a, prec);
    IdentityCertifies(n);
    var same := Equal(l, a);
    failures := failures + Failure(!result || !same);
  }

  /** The special-matrix block: n = 1..9 and prec = 2^2..2^9. No failure is ever counted. */
  method CheckSpecialMatrices() returns (failures: nat)
    ensures failures == 0
  {
    failures := 0;
    var n := 1;
    while n < 10
      invariant 1 <= n <= 10 && failures == 0
    {
      var l := new Ball[n, n]((i, j) => Zero);
      var a := new Ball[n, n]((i, j) => Zero);
      var lprec := 2;
      while lprec < 10
        invariant 2 <= lprec <= 10 && failures == 0
      {
        var f := CheckSpecialAt(l, a, Pow2(lprec));
        failures := failures + f;
        lprec := lprec + 1;
      }
      n := n + 1;
    }
  }

  // ---------------------------------------------------------------------------
  // One iteration of the randomised test

  datatype Verdict = Pass | FailSingular | FailDiverged | FailContainment

  /** The singular branch: a Q with a nonzero kernel vector v is rounded at prec0 and
      factorised; the factorisation never reports it positive definite. */
  method CheckSingular(q: RMatrix, prec0: nat, round: (real, nat) -> Ball, ghost v: seq<real>)
    returns (verdict: Verdict)
    requires IsSquare(q) && Symmetric(q) && SoundRounding(round) && InKernel(q, v)
    ensures verdict == Pass
  {
    var n := |q|;
    var a := new Ball[n, n]((i, j) => Zero);
    var l := new Ball[n, n]((i, j) => Zero);
    SetFromExact(a, q, prec0, round);
    var rInvertible := ArbMatLdl(l, a, prec0);
    RoundContains(q, prec0, round);
    SingularNeverCertifies(RoundMatrix(q, prec0, round), q, v);
    verdict := if rInvertible then FailSingular else Pass;
  }

  /** The invertible branch: Q is escalated until it certifies, and then L * D * U, with
      U = L^T and L, D unpacked from the packed factor, encloses Q. */
  method CheckInvertible(q: RMatrix, prec0: nat, round: (real, nat) -> Ball)
    returns (verdict: Verdict)
    requires IsSquare(q) && Symmetric(q) && 1 <= prec0 && SoundRounding(round)
    ensures verdict != FailSingular && verdict != FailContainment
    ensures verdict == FailDiverged <==> Escalation(q, prec0, round).Diverged?
  {
    var n := |q|;
    var a := new Ball[n, n]((i, j) => Zero);
    var l := new Ball[n, n]((i, j) => Zero);
    var d := new Ball[n, n]((i, j) => Zero);
    var u := new Ball[n, n]((i, j) => Zero);
    var outcome := Escalate(a, l, q, prec0, round);
    if outcome.Diverged? {
      verdict := FailDiverged;
    } else {
      ghost var m := RoundMatrix(q, outcome.prec, round);
      Unpack(l, d, u);
      var t := MatMul(MatMul(Rows(l), Rows(d)), Rows(u));
      RoundContains(q, outcome.prec, round);
      DecompositionContains(q, m);
      verdict := if MatContains(t, q) then Pass else FailContainment;
    }
  }

  /** One pass of the main loop for Q = R R^T: a singular Q (det of Q is zero, given here
      by a nonzero kernel vector v) must not certify; an invertible Q is escalated until it
      certifies, and then L * D * U must enclose Q. Neither check can fail; the escalation
      may give up, exactly when the loop does. */
  method CheckIteration(r: RMatrix, prec0: nat, round: (real, nat) -> Ball, qInvertible: bool, ghost v: seq<real>)
    returns (verdict: Verdict)
    requires IsSquare(r) && 1 <= prec0 && SoundRounding(round)
    requires !qInvertible ==> InKernel(Gram(r), v)
    ensures verdict != FailSingular && verdict != FailContainment
    ensures verdict == FailDiverged <==> qInvertible && Escalation(Gram(r), prec0, round).Diverged?
  {
    var q := Gram(r);
    GramSymmetric(r);
    if !qInvertible {
      verdict := CheckSingular(q, prec0, round, v);
    } else {
      verdict := CheckInvertible(q, prec0, round);
    }
  }
}
