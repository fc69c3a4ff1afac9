# Certified LDLᵀ factorisation of ball matrices (Arb `arb_mat_ldl`)

This project models Arb's `arb_mat_ldl`. The routine factors a square symmetric matrix
of real balls as L·D·Lᵀ, with L unit lower triangular and D diagonal. It returns a flag
that is set only when every pivot D[i] is certified strictly positive. When the flag is
set, every real symmetric matrix the balls enclose is positive definite: vᵀQv > 0 for
every nonzero v (`ExactLdl.CertifiedPositiveDefinite`). The project also models the test
driver `t-ldl.c` that exercises the routine.

Modules:

- `Balls` (`balls.dfy`): midpoint–radius balls with the operations the factorisation
  uses: `arb_mul`, `arb_submul`, `_arb_sqr`, `arb_div` and `arb_is_positive`. It also
  proves inclusion isotonicity: the result ball contains the exact result for any
  contained operands.
- `Matrices` (`matrices.dfy`):
  - ball and real matrices, with the snapshot `Rows` of an `array2`;
  - transpose, the zero and identity matrices, negation and matrix products;
  - sums and the summation lemmas the factorisation theorem needs.
- `Ldl` (`ldl.dfy`):
  - the in-place recurrence `_arb_mat_ldl_inplace`, as imperative code over an
    `array2<Ball>`. It is proved against the recurrence written as functions of the
    input (`Entry`, `OffSum`, `DiagSum`, `FirstFailure`, `InPlace`);
  - `arb_mat_ldl`, with its copy, its 0×0 and 1×1 shortcuts and the zeroing of the
    strict upper triangle (`Packed`).
- `ExactLdl` (`exact.dfy`): the same recurrence over exact reals. It proves four things:
  - the balls the routine computes contain the exact values, for every matrix the input
    encloses;
  - the exact factors satisfy L·D·Lᵀ = Q, so vᵀQv is the sum of D[k]·((Lᵀv)[k])²;
  - when the flag is set, every enclosed symmetric Q is positive definite;
  - a symmetric matrix with a nonzero kernel vector is never certified.
- `LdlTest` (`ldltest.dfy`): the test driver. It covers:
  - the special-matrix block: zero, negated identity and identity, for n = 1..9 and
    prec = 2², …, 2⁹;
  - the construction Q = R·Rᵀ, which is symmetric and positive semidefinite;
  - the singular branch;
  - the precision-doubling loop, which gives up past 10000 bits;
  - the unpacking of the packed factor into L, D and U = Lᵀ, and the check that L·D·U
    contains Q.

Ball arithmetic is exact. Midpoints carry no rounding, and radii bound the propagated
error exactly. A division whose divisor may contain zero yields the `Indeterminate`
ball, which has infinite radius. An entry that comes from such a division is never
certified positive. So the model keeps the property the routine relies on: a ball
matrix that encloses a symmetric matrix which is not positive definite is never
certified (the contrapositive of `ExactLdl.CertifiedPositiveDefinite`). Rounding the exact
matrix to balls (`arb_mat_set_fmpq_mat`) is a parameter `round`. It carries a soundness
requirement, `SoundRounding`: the ball it returns contains the exact value.

## Model

| member | source | states |
|---|---|---|
| Balls.SqrContains | arb_mat/ldl.c:28-32 | the square of a ball (the ball times itself) contains x² for every x the ball contains |
| Balls.MulContains | arb_mat/ldl.c:51-53 | the product ball contains the product of any two contained values |
| Balls.SubMulContains | arb_mat/ldl.c:54-55 | z − x·y as a ball contains w − x·y for any contained w, x, y |
| Balls.DivContains | arb_mat/ldl.c:57-59 | the quotient ball contains x / y for every contained x and nonzero contained y |
| Balls.PositiveContains | arb_mat/ldl.c:67-68 | a ball certified positive contains only positive reals |
| Balls.Neg | arb_mat/test/t-ldl.c:93-94 | negating a ball contains the negation of every contained value |
| Ldl.FirstFailure | arb_mat/ldl.c:45-69 | the row where the outer loop stops: every earlier pivot is certified positive, and the pivot at that row (if there is one) is not |
| Ldl.LdlInPlace | arb_mat/ldl.c:34-74 | the flag is set exactly when every pivot of the recurrence is positive; afterwards rows up to the first failing one hold the recurrence on and below the diagonal, and every other entry keeps its input value |
| Ldl.SubtractOffDiagonal | arb_mat/ldl.c:49-56 | the k loop leaves entry (i, j) holding A[i][j] minus all j subtractions A[k][k]·(A[i][k]·A[j][k]), with nothing else changed |
| Ldl.ReduceOffDiagonal | arb_mat/ldl.c:47-60 | entry (i, j) becomes the recurrence's L[i][j], with nothing else changed |
| Ldl.ReduceDiagonal | arb_mat/ldl.c:61-66 | entry (i, i) becomes the recurrence's D[i], with nothing else changed |
| Ldl.Set | arb_mat/ldl.c:100 | the destination becomes a copy of the source |
| Ldl.ArbMatLdl | arb_mat/ldl.c:76-116 | the flag is the certification flag of the input; L holds the packed factor: the in-place result with a zero strict upper triangle (also for the 0×0 and 1×1 shortcuts) |
| Ldl.SingletonShortcut | arb_mat/ldl.c:102-103 | for n = 1 the direct answer (positivity of the single entry, L = A) is what the general loop computes |
| Ldl.CertifiesIff | arb_mat/ldl.c:44-69 | the flag is set if and only if every pivot D[i] is certified positive |
| Ldl.LowerTriangleOnly | arb_mat/ldl.c:45-66 | two inputs that agree on and below the diagonal give the same flag and the same packed factor; the strict upper triangle is never read |
| ExactLdl.EntryContains | arb_mat/ldl.c:45-69 | every ball the recurrence computes contains the exact value the same recurrence gives for any real matrix the input encloses |
| ExactLdl.OffSumContains | arb_mat/ldl.c:49-56 | each partial subtraction of an off-diagonal entry contains its exact counterpart |
| ExactLdl.DiagSumContains | arb_mat/ldl.c:61-66 | each partial subtraction of a diagonal entry contains its exact counterpart |
| ExactLdl.PivotsPositive | arb_mat/ldl.c:67-68 | when the flag is set, every exact pivot of every enclosed matrix is strictly positive |
| ExactLdl.LowerTermsSum | arb_mat/ldl.c:45-66 | the recurrence inverts the product: the sum of the terms L[i][k]·D[k]·L[j][k] over k is Q[i][j], for j ≤ i |
| ExactLdl.Factorisation | arb_mat/ldl.c:34-74 | for a symmetric Q with nonzero exact pivots, L·D·Lᵀ == Q exactly |
| Matrices.LdlQuadratic | arb_mat/ldl.c:34-74 | for any L and diagonal D, vᵀ(L·D·Lᵀ)v is the sum over k of (Lᵀv)[k]·(D·Lᵀv)[k], that is D[k]·((Lᵀv)[k])² |
| Matrices.SquareTermsPositive | arb_mat/ldl.c:67-68 | with every D[k] > 0 and some (Lᵀv)[k] ≠ 0, the sum of the terms D[k]·((Lᵀv)[k])² is positive |
| ExactLdl.QuadraticAsSquares | arb_mat/ldl.c:34-74 | for a symmetric Q with nonzero exact pivots, vᵀQv equals the sum of D[k]·((Lᵀv)[k])² over the exact factors |
| ExactLdl.CertifiedPositiveDefinite | arb_mat/ldl.c:44-69 | when the flag is set for a ball matrix enclosing a symmetric Q, vᵀQv > 0 for every nonzero v |
| ExactLdl.CertifiedKernelTrivial | arb_mat/ldl.c:67-68 | when the flag is set for a ball matrix enclosing a symmetric Q, Q v = 0 forces v = 0 |
| ExactLdl.SingularNeverCertifies | arb_mat/test/t-ldl.c:141-155 | a ball matrix that encloses a symmetric Q with a nonzero kernel vector is never certified |
| LdlTest.SetZero | arb_mat/test/t-ldl.c:82 | the matrix becomes the zero matrix |
| LdlTest.SetOne | arb_mat/test/t-ldl.c:93 | the matrix becomes the identity |
| LdlTest.Negate | arb_mat/test/t-ldl.c:94 | the matrix becomes its entrywise negation |
| LdlTest.Equal | arb_mat/test/t-ldl.c:107 | the answer is true exactly when the two matrices have the same shape and the same balls |
| LdlTest.ZeroNeverCertifies | arb_mat/test/t-ldl.c:81-90 | the zero matrix is never certified, at any size n ≥ 1 |
| LdlTest.NegIdentityNeverCertifies | arb_mat/test/t-ldl.c:92-102 | the negated identity is never certified, at any size n ≥ 1 |
| LdlTest.IdentityEntry | arb_mat/test/t-ldl.c:104-107 | on the identity the recurrence yields exact ones on the diagonal and exact zeros below it |
| LdlTest.IdentityCertifies | arb_mat/test/t-ldl.c:104-113 | the identity is certified and its packed factor equals the identity |
| LdlTest.CheckSpecialAt | arb_mat/test/t-ldl.c:81-113 | at one size and precision, none of the three special-matrix checks fails |
| LdlTest.CheckSpecialMatrices | arb_mat/test/t-ldl.c:66-118 | over n = 1..9 and prec = 2², …, 2⁹, no failure is counted |
| LdlTest.GramSymmetric | arb_mat/test/t-ldl.c:28-42 | Q = R·Rᵀ is symmetric |
| LdlTest.GramEntry | arb_mat/test/t-ldl.c:38-39 | entry (i, j) of R·Rᵀ is the dot product of rows i and j of R |
| LdlTest.GramPositiveSemidefinite | arb_mat/test/t-ldl.c:28-42 | Q = R·Rᵀ is positive semidefinite: vᵀQv ≥ 0 for every v |
| LdlTest.RoundContains | arb_mat/test/t-ldl.c:143 | the rounded matrix encloses the exact one when the rounding is sound |
| LdlTest.SetFromExact | arb_mat/test/t-ldl.c:161 | the matrix becomes the entrywise rounding of Q at the given precision |
| LdlTest.EscalationTrace | arb_mat/test/t-ldl.c:159-179 | the loop ends after t doublings: every earlier attempt was at most 10000 bits and did not certify; the last attempt certifies exactly when the outcome is Certified; a Diverged outcome is above 10000 bits |
| LdlTest.EscalationAttempts | arb_mat/test/t-ldl.c:159-179 | from any starting precision ≥ 1, the loop makes at most 15 attempts |
| LdlTest.DoubledExceeds | arb_mat/test/t-ldl.c:169-177 | after 14 doublings the precision is above 10000 bits |
| LdlTest.Escalate | arb_mat/test/t-ldl.c:159-179 | the imperative loop's outcome is Escalation's; A holds Q rounded at the final precision and L holds its packed factor |
| LdlTest.Unpack | arb_mat/test/t-ldl.c:181-191 | D becomes the diagonal of the packed factor, L the packed factor with ones on its diagonal, and U the transpose of that unit L |
| LdlTest.TransposeInto | arb_mat/test/t-ldl.c:185 | U becomes the transpose of L |
| LdlTest.MoveDiagonal | arb_mat/test/t-ldl.c:186-191 | the pass over the diagonal moves each L[i][i] into D and writes ones into L and U |
| LdlTest.UnitLowerContains | arb_mat/test/t-ldl.c:189 | when certified, the unpacked unit L encloses the exact L |
| LdlTest.DiagPartContains | arb_mat/test/t-ldl.c:188 | when certified, the unpacked D encloses the exact D |
| LdlTest.DecompositionContains | arb_mat/test/t-ldl.c:192-209 | when certified, L·D·U built from the packed factor contains Q |
| Matrices.MatMulContains | arb_mat/test/t-ldl.c:192-193 | the ball matrix product contains the product of any enclosed real matrices |
| LdlTest.CheckSingular | arb_mat/test/t-ldl.c:141-155 | the singular branch never reports a failure |
| LdlTest.CheckInvertible | arb_mat/test/t-ldl.c:156-210 | the invertible branch never fails the containment check, and it fails to converge exactly when the escalation diverges |
| LdlTest.CheckIteration | arb_mat/test/t-ldl.c:138-210 | for Q = R·Rᵀ, neither the singular check nor the containment check can fail; the run gives up exactly when Q is invertible and the escalation diverges |

## Left out

- Floating-point midpoints and `mag_t` radii: the ball arithmetic is exact, and the
  `prec` argument is passed along but does not change any result. Inclusion
  isotonicity, which the proofs use, holds for Arb's rounded operations too, but their
  rounding is not modelled.
- `arb_mul` and `arb_div`: the radius of a product is |a|·r_b + |b|·r_a + r_a·r_b,
  and the radius of a quotient by a ball above zero is (|a|·r_b + b·r_a) / (b·(b − r_b)).
  These are the standard propagated bounds. Arb's own radius code is not part of this
  model, and Arb adds rounding terms to these bounds.
- `arb_mat_set_fmpq_mat` is the parameter `round`, required only to be sound. The random
  generators (`fmpq_mat_randtest`, `n_randint`), which choose n, qbits, prec and R, are
  inputs.
- `fmpq_mat_is_invertible` (a determinant over ℚ) is not modelled. A singular Q is given
  with a nonzero kernel vector, and an invertible Q is given by the flag `qInvertible`.
- LdlTest.EscalationTrace: convergence of the escalation for an invertible Q is not
  proved. It needs Arb's radii to shrink as the precision grows, and exact balls do
  not model that. The test's FailDiverged outcome is kept as a possible verdict.
- Printing of diagnostics and `abort()`: a failed check becomes a verdict or a counted
  failure. The fatal dimension checks of `arb_mat_ldl` (arb_mat/ldl.c:82-93) are
  preconditions of `Ldl.ArbMatLdl`.
- Memory management (`arb_init`, `arb_clear`, matrix init and clear) is not modelled,
  including the `arb_init` and `arb_clear` of the temporary `tmp`. The methods keep `tmp`
  itself as a local ball, as arb_mat/ldl.c:51-55 and 63-65 do.
- The test's `arb_mat_mul` at `prec` is the exact ball product `MatMul`.
