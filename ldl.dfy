/** The certified LDL^T factorisation of a square ball matrix (arb_mat/ldl.c).

    The recurrence runs in place on one matrix: after row i has been processed, the
    entries of row i strictly below the diagonal hold L's coefficients and the diagonal
    entry holds D[i]. The run stops right after the first diagonal entry that is not
    certified strictly positive. */
module Ldl {
  import opened Balls
  import opened Matrices

  // ---------------------------------------------------------------------------
  // The recurrence, as functions of the input matrix m

  /** The final value of entry (i, j), j <= i, once row i has been processed. */
  function Entry(m: Matrix, i: nat, j: nat): Ball
    requires IsSquare(m) && j <= i < |m|
    decreases i, j, 1, 0
  {
    if j < i then Div(OffSum(m, i, j, j), Entry(m, j, j)) else DiagSum(m, i, i)
  }

  /** Entry (i, j), j < i, after k of its subtractions A[i][j] -= A[k][k] * (A[i][k] * A[j][k]). */
  function OffSum(m: Matrix, i: nat, j: nat, k: nat): Ball
    requires IsSquare(m) && k <= j < i < |m|
    decreases i, j, 0, k
  {
    if k == 0 then m[i][j]
    else SubMul(OffSum(m, i, j, k - 1), Entry(m, k - 1, k - 1),
                Mul(Entry(m, i, k - 1), Entry(m, j, k - 1)))
  }

  /** Diagonal entry (i, i) after k of its subtractions A[i][i] -= A[k][k] * A[i][k]^2. */
  function DiagSum(m: Matrix, i: nat, k: nat): Ball
    requires IsSquare(m) && k <= i < |m|
    decreases i, i, 0, k
  {
    if k == 0 then m[i][i]
    else SubMul(DiagSum(m, i, k - 1), Entry(m, k - 1, k - 1), Sqr(Entry(m, i, k - 1)))
  }

  /** The first row at or after `from` whose diagonal is not certified positive
      (|m| when there is none). */
  function FirstFailure(m: Matrix, from: nat): (f: nat)
    requires IsSquare(m) && from <= |m|
    ensures from <= f <= |m|
    ensures forall r :: from <= r < f ==> Entry(m, r, r).IsPositive()
    ensures f < |m| ==> !Entry(m, f, f).IsPositive()
    decreases |m| - from
  {
    if from == |m| then from
    else if !Entry(m, from, from).IsPositive() then from
    else FirstFailure(m, from + 1)
  }

  /** The certification flag: every diagonal D[i] is certified strictly positive. */
  predicate Certifies(m: Matrix)
    requires IsSquare(m)
  {
    FirstFailure(m, 0) == |m|
  }

  /** Entry (i, j) after the in-place routine: rows up to and including the first failing
      one hold the recurrence on and below the diagonal; every other entry is untouched. */
  function InPlaceAt(m: Matrix, i: nat, j: nat): Ball
    requires IsSquare(m) && i < |m| && j < |m|
  {
    if j <= i && i <= FirstFailure(m, 0) then Entry(m, i, j) else m[i][j]
  }

  function InPlace(m: Matrix): (r: Matrix)
    requires IsSquare(m)
    ensures IsSquare(r) && |r| == |m|
  {
    seq(|m|, i requires 0 <= i < |m| =>
      seq(|m|, j requires 0 <= j < |m| => InPlaceAt(m, i, j)))
  }

  /** Entry (i, j) of the packed result of arb_mat_ldl: the in-place result with the
      strictly upper triangle set to the exact zero ball. */
  function PackedAt(m: Matrix, i: nat, j: nat): Ball
    requires IsSquare(m) && i < |m| && j < |m|
  {
    if i < j then Zero else InPlaceAt(m, i, j)
  }

  function Packed(m: Matrix): (r: Matrix)
    requires IsSquare(m)
    ensures IsSquare(r) && |r| == |m|
  {
    seq(|m|, i requires 0 <= i < |m| =>
      seq(|m|, j requires 0 <= j < |m| => PackedAt(m, i, j)))
  }

  // ---------------------------------------------------------------------------
  // The routines

  /** The state of the in-place routine before entry (i, j) is computed: the rows above i
      are finished on and below the diagonal, so are the first j entries of row i, and
      every other entry still holds its input value. */
  ghost predicate Progress(a: array2<Ball>, m0: Matrix, i: nat, j: nat)
    requires IsSquare(m0) && a.Length0 == a.Length1 == |m0| && j <= i
    reads a
  {
    forall r, c :: 0 <= r < |m0| && 0 <= c < |m0| ==>
      a[r, c] == if (c <= r && r < i) || (r == i && c < j) then Entry(m0, r, c) else m0[r][c]
  }

  /** As Progress(a, m0, i, j), except that entry (i, j) holds x, a partial result. */
  ghost predicate Pending(a: array2<Ball>, m0: Matrix, i: nat, j: nat, x: Ball)
    requires IsSquare(m0) && a.Length0 == a.Length1 == |m0| && j <= i
    reads a
  {
    forall r, c :: 0 <= r < |m0| && 0 <= c < |m0| ==>
      a[r, c] == if (c <= r && r < i) || (r == i && c < j) then Entry(m0, r, c)
                 else if r == i && c == j then x
                 else m0[r][c]
  }

  /** The k loop for an off-diagonal entry (i, j), j < i, of _arb_mat_ldl_inplace:
      the j subtractions A[i][j] -= A[k][k] * (A[i][k] * A[j][k]). */
  method SubtractOffDiagonal(a: array2<Ball>, ghost m0: Matrix, i: nat, j: nat, prec: nat)
    requires IsSquare(m0) && a.Length0 == a.Length1 == |m0|
    requires j < i < |m0|
    requires Progress(a, m0, i, j)
    modifies a
    ensures Pending(a, m0, i, j, OffSum(m0, i, j, j))
  {
    var tmp: Ball;
    var k := 0;
    assert Pending(a, m0, i, j, OffSum(m0, i, j, 0));
    while k < j
      invariant 0 <= k <= j
      invariant Pending(a, m0, i, j, OffSum(m0, i, j, k))
    {
      tmp := Mul(a[i, k], a[j, k]);
      a[i, j] := SubMul(a[i, j], a[k, k], tmp);
      k := k + 1;
    }
  }

  /** One off-diagonal entry (i, j), j < i, of _arb_mat_ldl_inplace: the k loop of
      subtractions followed by the division by D[j]. */
  method ReduceOffDiagonal(a: array2<Ball>, ghost m0: Matrix, i: nat, j: nat, prec: nat)
    requires IsSquare(m0) && a.Length0 == a.Length1 == |m0|
    requires j < i < |m0| && i <= FirstFailure(m0, 0)
    requires Progress(a, m0, i, j)
    modifies a
    ensures Progress(a, m0, i, j + 1)
  {
    SubtractOffDiagonal(a, m0, i, j, prec);
    // the divisor is a diagonal entry certified positive in an earlier row
    assert a[j, j].IsPositive();
    a[i, j] := Div(a[i, j], a[j, j]);
  }

  /** The diagonal entry (i, i) of _arb_mat_ldl_inplace: the k loop of subtractions. */
  method ReduceDiagonal(a: array2<Ball>, ghost m0: Matrix, i: nat, prec: nat)
    requires IsSquare(m0) && a.Length0 == a.Length1 == |m0|
    requires i < |m0|
    requires Progress(a, m0, i, i)
    modifies a
    ensures Progress(a, m0, i + 1, 0)
  {
    var tmp: Ball;
    var k := 0;
    assert Pending(a, m0, i, i, DiagSum(m0, i, 0));
    while k < i
      invariant 0 <= k <= i
      invariant Pending(a, m0, i, i, DiagSum(m0, i, k))
    {
      tmp := Sqr(a[i, k]);
      a[i, i] := SubMul(a[i, i], a[k, k], tmp);
      k := k + 1;
    }
  }

  /** _arb_mat_ldl_inplace: the result is the certification flag, and the matrix ends
      in the state InPlace describes. */
  method LdlInPlace(a: array2<Ball>, prec: nat) returns (result: bool)
    requires a.Length0 == a.Length1
    modifies a
    ensures IsSquare(old(Rows(a)))
    ensures result == Certifies(old(Rows(a)))
    ensures Rows(a) == InPlace(old(Rows(a)))
  {
    ghost var m0 := Rows(a);
    RowsSquare(a);
    var n := a.Length0;
    result := true;
    var i := 0;
    while i < n && result
      invariant 0 <= i <= n
      invariant result ==> i <= FirstFailure(m0, 0)
      invariant !result ==> 1 <= i && FirstFailure(m0, 0) == i - 1
      invariant Progress(a, m0, i, 0)
    {
      var j := 0;
      while j < i
        invariant 0 <= j <= i
        invariant Progress(a, m0, i, j)
      {
        ReduceOffDiagonal(a, m0, i, j, prec);
        j := j + 1;
      }
      ReduceDiagonal(a, m0, i, prec);
      assert a[i, i] == Entry(m0, i, i);
      if !a[i, i].IsPositive() {
        result := false;
      }
      i := i + 1;
    }
    forall r, c | 0 <= r < n && 0 <= c < n ensures Rows(a)[r][c] == InPlace(m0)[r][c] {
      assert a[r, c] == if c <= r && r < i then Entry(m0, r, c) else m0[r][c];
    }
    MatrixExt(Rows(a), InPlace(m0));
  }

  /** arb_mat_set. */
  method Set(dest: array2<Ball>, src: array2<Ball>)
    requires dest.Length0 == src.Length0 && dest.Length1 == src.Length1
    modifies dest
    ensures Rows(dest) == old(Rows(src))
  {
    ghost var m0 := Rows(src);
    var i := 0;
    while i < src.Length0
      invariant 0 <= i <= src.Length0
      invariant forall r, c :: 0 <= r < src.Length0 && 0 <= c < src.Length1 ==>
        src[r, c] == m0[r][c] && (r < i ==> dest[r, c] == m0[r][c])
    {
      var j := 0;
      while j < src.Length1
        invariant 0 <= j <= src.Length1
        invariant forall r, c :: 0 <= r < src.Length0 && 0 <= c < src.Length1 ==>
          src[r, c] == m0[r][c] && ((r < i || (r == i && c < j)) ==> dest[r, c] == m0[r][c])
      {
        dest[i, j] := src[i, j];
        j := j + 1;
      }
      i := i + 1;
    }
    assert |Rows(dest)| == |m0|;
    forall r | 0 <= r < |m0| ensures Rows(dest)[r] == m0[r] {
    }
  }

  /** arb_mat_ldl: L receives the packed factorisation of A; the result is the
      certification flag. */
  method ArbMatLdl(l: array2<Ball>, a: array2<Ball>, prec: nat) returns (result: bool)
    requires a.Length0 == a.Length1
    requires l.Length0 == a.Length0 && l.Length1 == a.Length1
    modifies l
    ensures IsSquare(old(Rows(a)))
    ensures result == Certifies(old(Rows(a)))
    ensures Rows(l) == Packed(old(Rows(a)))
  {
    ghost var m0 := Rows(a);
    RowsSquare(a);
    var n := a.Length0;
    if n == 0 {
      assert Rows(l) == [] == Packed(m0);
      return true;
    }
    Set(l, a);
    if n == 1 {
      SingletonShortcut(m0);
      return l[0, 0].IsPositive();
    }
    result := LdlInPlace(l, prec);
    ghost var ip := Rows(l);
    // clear every entry above the diagonal of the packed factor
    var i := 0;
    while i < n
      invariant 0 <= i <= n
      invariant forall r, c :: 0 <= r < n && 0 <= c < n ==>
        l[r, c] == if r < i && r < c then Zero else ip[r][c]
    {
      var j := i + 1;
      while j < n
        invariant i + 1 <= j <= n
        invariant forall r, c :: 0 <= r < n && 0 <= c < n ==>
          l[r, c] == if (r < i && r < c) || (r == i && i < c < j) then Zero else ip[r][c]
      {
        l[i, j] := Zero;
        j := j + 1;
      }
      i := i + 1;
    }
    MatrixExt(Rows(l), Packed(m0));
  }

  // ---------------------------------------------------------------------------
  // Properties

  /** For a 1 x 1 matrix the direct answer of arb_mat_ldl agrees with what the general
      loop computes: the flag is the positivity of the single entry, and L is A. */
  lemma SingletonShortcut(m: Matrix)
    requires IsSquare(m) && |m| == 1
    ensures Certifies(m) == m[0][0].IsPositive()
    ensures Packed(m) == m
  {
    assert Entry(m, 0, 0) == DiagSum(m, 0, 0) == m[0][0];
    MatrixExt(Packed(m), m);
  }

  /** The flag is set exactly when every diagonal D[i] is certified positive. */
  lemma CertifiesIff(m: Matrix)
    requires IsSquare(m)
    ensures Certifies(m) <==> forall i :: 0 <= i < |m| ==> Entry(m, i, i).IsPositive()
  {
    var f := FirstFailure(m, 0);
    if f < |m| {
      assert !Entry(m, f, f).IsPositive();
    } else {
      assert forall i :: 0 <= i < |m| ==> Entry(m, i, i).IsPositive();
    }
  }

  /** Two matrices that agree on and below the diagonal. */
  predicate LowerEq(m: Matrix, p: Matrix)
    requires IsSquare(m) && IsSquare(p) && |m| == |p|
  {
    forall r, c :: 0 <= c <= r < |m| ==> m[r][c] == p[r][c]
  }

  /** Only the lower triangle and the diagonal of the input are ever read. */
  lemma {:induction false} EntryLower(m: Matrix, p: Matrix, i: nat, j: nat)
    requires IsSquare(m) && IsSquare(p) && |m| == |p| && LowerEq(m, p)
    requires j <= i < |m|
    ensures Entry(m, i, j) == Entry(p, i, j)
    decreases i, j, 1, 0
  {
    if j < i {
      OffSumLower(m, p, i, j, j);
      EntryLower(m, p, j, j);
    } else {
      DiagSumLower(m, p, i, i);
    }
  }

  lemma {:induction false} OffSumLower(m: Matrix, p: Matrix, i: nat, j: nat, k: nat)
    requires IsSquare(m) && IsSquare(p) && |m| == |p| && LowerEq(m, p)
    requires k <= j < i < |m|
    ensures OffSum(m, i, j, k) == OffSum(p, i, j, k)
    decreases i, j, 0, k
  {
    if k > 0 {
      OffSumLower(m, p, i, j, k - 1);
      EntryLower(m, p, k - 1, k - 1);
      EntryLower(m, p, i, k - 1);
      EntryLower(m, p, j, k - 1);
    }
  }

  lemma {:induction false} DiagSumLower(m: Matrix, p: Matrix, i: nat, k: nat)
    requires IsSquare(m) && IsSquare(p) && |m| == |p| && LowerEq(m, p)
    requires k <= i < |m|
    ensures DiagSum(m, i, k) == DiagSum(p, i, k)
    decreases i, i, 0, k
  {
    if k > 0 {
      DiagSumLower(m, p, i, k - 1);
      EntryLower(m, p, k - 1, k - 1);
      EntryLower(m, p, i, k - 1);
    }
  }

  lemma {:induction false} FirstFailureLower(m: Matrix, p: Matrix, from: nat)
    requires IsSquare(m) && IsSquare(p) && |m| == |p| && LowerEq(m, p)
    requires from <= |m|
    ensures FirstFailure(m, from) == FirstFailure(p, from)
    decreases |m| - from
  {
    if from < |m| {
      EntryLower(m, p, from, from);
      FirstFailureLower(m, p, from + 1);
    }
  }

  /** The outcome of arb_mat_ldl, flag and packed factor alike, depends only on the
      lower triangle and the diagonal of the input. */
  lemma LowerTriangleOnly(m: Matrix, p: Matrix)
    requires IsSquare(m) && IsSquare(p) && |m| == |p| && LowerEq(m, p)
    ensures Certifies(m) == Certifies(p)
    ensures Packed(m) == Packed(p)
  {
    FirstFailureLower(m, p, 0);
    forall i, j | 0 <= i < |m| && 0 <= j < |m| ensures Packed(m)[i][j] == Packed(p)[i][j] {
      if j <= i {
        EntryLower(m, p, i, j);
      }
    }
    MatrixExt(Packed(m), Packed(p));
  }
}
