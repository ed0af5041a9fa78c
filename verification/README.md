# Numerical-methods scripts: SVD engine, spring chain and 1-D finite elements

This project models the core of a small collection of numerical scripts in Dafny:

- **`project1/svd.py`** computes the singular value decomposition U·S·Vᵗ of a
  matrix from the eigenpairs of A·Aᵗ and Aᵗ·A, and also its inverse V·S⁻¹·Uᵗ
  and a condition number. Module `Svd` models:
  - the singularity scan over the eigenvalues of A·Aᵗ;
  - the loop that pairs each eigenvalue with one eigenvector of each product
    matrix, through working copies of the eigenvalue lists in which a consumed
    entry is overwritten with the sentinel -1;
  - `add_evs`, which places the leftover eigenvectors;
  - the diagonal matrices S and S⁻¹;
  - the sum of squares behind `L2_norm`;
  - every exit of `svd` without a result.
- **`project1/springSystem.py`** sets up a chain of masses and springs. Module
  `SpringSystem` models:
  - the prompts and what each one accepts, as a loop over the sequence of
    answers typed;
  - the spring count `nSp`;
  - the signed incidence matrix A between springs and masses;
  - the spring-constant matrix C and the gravity loads f.
- **`project2/feFunctions.py`** holds the building blocks of the finite-element
  heat solver. Module `FeFunctions` models:
  - the linear Lagrange shape functions on [-1, 1];
  - the affine map from [-1, 1] onto an element;
  - `globalAssemble`, which scatters a 2×2 element matrix into a global matrix
    in place.
- **`project2/fe.py`** is the heat-solver driver on [0, 1] × [0, 1]. Module `Fe`
  models:
  - the discretisation;
  - the element loop that assembles M, K and F;
  - the Dirichlet boundary step;
  - the time-marching loop that rebuilds F at every step and counts the steps.

Module `Matrices` holds the shared matrix vocabulary:
- row views of 2-D arrays;
- zeros, columns and transposes;
- products and diagonal matrices;
- an in-place row write.

Arithmetic is exact: reals are mathematical reals, and indices are unbounded
naturals. The numerical library calls are parameters of the model:
- the eigen-solver outputs, given as `Eigensystem` values;
- the square root;
- the Gaussian quadrature of the load;
- the Euler update of either scheme;
- the initial condition.

The model proves what the scripts do with their inputs. It does not prove what
those library calls compute.

Where the scripts' docstrings and comments differ from the code, the model
follows the code:
- Consumed eigenvalues are marked with -1, not with 0 as the `add_evs`
  docstring says.
- `add_evs` writes eigenvector i into row `len(A) - i`, not into the next
  unfilled row (see `Svd.AddEvsPlacement`).
- The "L2" / "infinity" norm of the condition number is the square root of the
  sum of the squares of all entries.
- S and S⁻¹ are only used when no eigenvalue of A·Aᵗ is close to zero.
  Otherwise `svd` raises before returning, so the model does not build them
  (S⁻¹ would divide by zero).
- The time loop runs Nt − 1 steps, so the last solution is at tf − dt rather
  than tf.

## Model

| member | source | states |
|---|---|---|
| Svd.SentinelNeverMatches | project1/svd.py:95-104 | The -1 marker is never close (under `np.isclose`) to a nonnegative eigenvalue, so a consumed entry can never be picked again |
| Svd.L2Norm | project1/svd.py:30-44 | The accumulator loop returns the square root of the sum of the squares of all entries |
| Svd.RowSumOfSquaresZero | project1/svd.py:41-43 | One row's share of the norm accumulator is nonnegative, and it is zero for an all-zero row |
| Svd.SumOfSquaresZero | project1/svd.py:40-44 | The norm's radicand is nonnegative, and it is zero for an all-zero (or empty) matrix |
| Svd.CheckInvertible | project1/svd.py:68-75 | Fails with "no real eigenvalues" exactly when some entry cannot be compared; otherwise `has_inverse` is true iff no eigenvalue is close to 0 |
| Svd.Matches | project1/svd.py:99-100 | The `np.where` index list holds exactly the indices whose entry is close to the value, in ascending order |
| Svd.Lookup | project1/svd.py:99-100 | `int(...)` of the match list, when defined, is an in-range index whose entry is close to the value |
| Svd.IncreasingSpread | project1/svd.py:99-100 | A strictly increasing index list spans at least its own length, so two matches force size ≥ 2 |
| Svd.LookupIsUniqueMatch | project1/svd.py:99-100 | The lookup yields k if and only if k is the one and only index close to the value |
| Svd.FindIndex | project1/svd.py:99-100 | The array scan builds the same result as the lookup over the array's contents |
| Svd.Advance | project1/svd.py:101-104 | One loop step keeps UT m×m and VT n×n with rows of the right length |
| Svd.PairFrom | project1/svd.py:93-104 | The pairing loop preserves the shapes of UT and VT, and it only fails with "no unique match" or "row out of range" |
| Svd.PairEigenvectors | project1/svd.py:93-104 | The imperative loop over the working arrays reaches the state (or failure) that the pairing specification gives |
| Svd.PairingOverrunsVt | project1/svd.py:101-102 | With more eigenvalues than rows of VT, the remaining steps cannot all succeed |
| Svd.TallMatrixNeverPairs | project1/svd.py:93-104 | For m > n (more eigenvalues of A·Aᵗ than rows of VT), the pairing loop always fails |
| Svd.ListAdvance | project1/svd.py:99-104 | Consuming the unique match of the next eigenvalue keeps the copy's bookkeeping: picked entries are -1, picks are distinct, others unchanged |
| Svd.RowsAdvance | project1/svd.py:101-102 | Writing the picked eigenvector column into the next row keeps the row bookkeeping |
| Svd.TracksAdvance | project1/svd.py:98-104 | One successful step keeps the invariant for both eigenvalue lists and both matrices |
| Svd.PairFromTracks | project1/svd.py:93-104 | A successful loop from step i keeps the invariant, and it has consumed one index per eigenvalue |
| Svd.PairingSound | project1/svd.py:93-104 | After a successful loop, each eigenvalue consumed one distinct index in each copy, and those indices (only) hold -1. Row i of UT/VT is the eigenvector column matched to eigenvalue i; unreached rows of UT are zero |
| Svd.PyIndex | project1/svd.py:24 | Python's resolution of a (possibly negative) index yields an in-range position or nothing (IndexError) |
| Svd.AddEvsFrom | project1/svd.py:19-27 | The `add_evs` loop keeps the matrix's shape |
| Svd.AddEvs | project1/svd.py:7-28 | In place, `add_evs` returns the array it was given, with its rows as the `add_evs` loop specification says |
| Svd.AddEvsFirstUnconsumed | project1/svd.py:19-27 | If entry 0 is unconsumed, the first write targets row len(A); the swallowed IndexError leaves the matrix unchanged |
| Svd.AddEvsPlacementFrom | project1/svd.py:21-24 | From step i on, row r is overwritten by column len(A) − r exactly when that entry is unconsumed and r has not been passed |
| Svd.AddEvsPlacement | project1/svd.py:21-24 | With entry 0 consumed, row r ≥ 1 becomes eigenvector column len(A) − r exactly when that eigenvalue was unconsumed; every other row is unchanged |
| Svd.AddEvsOverwritesPairedRow | project1/svd.py:21-24 | Concrete 3×3 case: the leftover eigenvector lands in row 1, replacing a paired row, while row 2 stays zero |
| Svd.BuildDiagonals | project1/svd.py:114-119 | S is m×n with the singular values on its diagonal, and SI is n×m with their reciprocals |
| Svd.Completed | project1/svd.py:106-112 | After the `add_evs` branch, UT is still m×m and VT n×n |
| Svd.PairAndComplete | project1/svd.py:86-112 | A pairing failure is passed on unchanged; otherwise the result is the completed rows of UT and VT |
| Svd.InverseOf | project1/svd.py:133 | V·SI·UT is an n×m matrix |
| Svd.Decomposition | project1/svd.py:115-140 | U is m×m, V is n×n, S is m×n and the inverse is n×m |
| Svd.ConditionNumber | project1/svd.py:139-140 | The condition number is the product of the two norms |
| Svd.Decompose | project1/svd.py:114-145 | The tail of `svd` yields (U, S, V), the inverse and the condition number as the decomposition specification says |
| Svd.SvdOf | project1/svd.py:58-62 | The "not a matrix" failure happens exactly when the input has fewer than two axes |
| Svd.Svd | project1/svd.py:46-145 | The method ends in the first failing exit, or the decomposition, exactly as the outcome specification says |
| Svd.SvdOutcome | project1/svd.py:64-145 | `svd` fails when an eigenvalue cannot be compared, fails on every tall matrix, and fails when an eigenvalue of A·Aᵗ is close to 0. On success m ≤ n, all singular values are nonzero, S = diag(svs), U is m×m, V is n×n, and the condition number is ‖A‖·‖A⁻¹‖ |
| Svd.IsClose | project1/svd.py:72 | `np.isclose(a, b)` with NumPy's default tolerances: abs(a − b) ≤ 1e-8 + 1e-5·abs(b) |
| Svd.SingularValues | project1/svd.py:78 | svs[i] is the square root of eigenvalue i |
| Svd.Reciprocals | project1/svd.py:117-119 | Entry i of the inverse diagonal is 1/σᵢ |
| FeFunctions.Lagrange1 | project2/feFunctions.py:25-26 | The shape function (1 − ξ)/2 |
| FeFunctions.Lagrange2 | project2/feFunctions.py:28-29 | The shape function (1 + ξ)/2 |
| FeFunctions.ReferenceMap | project2/feFunctions.py:22 | The affine map ((x2 − x1)/2)(ξ + 1) + x1 |
| FeFunctions.MappedForcing | project2/feFunctions.py:18-23 | The forcing term evaluated at the image of ξ under the reference map |
| FeFunctions.PartitionOfUnity | project2/feFunctions.py:25-29 | N1(ξ) + N2(ξ) = 1 everywhere |
| FeFunctions.NodalValues | project2/feFunctions.py:25-29 | Each shape function is 1 at its own node and 0 at the other |
| FeFunctions.ReferenceMapEndpoints | project2/feFunctions.py:18-23 | The map sends -1 to x1 and 1 to x2 |
| FeFunctions.ReferenceMapInterpolates | project2/feFunctions.py:18-29 | The map equals x1·N1(ξ) + x2·N2(ξ) |
| FeFunctions.ReferenceMapAffine | project2/feFunctions.py:22 | The map is affine with slope (x2 − x1)/2 |
| FeFunctions.GlobalAssemble | project2/feFunctions.py:63-79 | In place, each entry of G gains exactly the element's contribution (only the 2×2 block at (i, i) changes), and the same array is returned |
| FeFunctions.ContributionShape | project2/feFunctions.py:74-77 | An element adds nothing outside its 2×2 block, and a symmetric element matrix adds symmetrically |
| Fe.AcceptCount | project2/fe.py:7-29 | The node-count and time-step prompts accept an integer n exactly when n ≥ 1 |
| Fe.MassLocal | project2/fe.py:65 | `mLocal` is symmetric, and its entries add up to the element length dx |
| Fe.StiffnessLocal | project2/fe.py:66 | `kLocal` is symmetric, and each of its rows sums to zero |
| Fe.ParseScheme | project2/fe.py:31-43 | The scheme prompt accepts forward Euler iff "f" is typed and backward Euler iff "b" is typed |
| Fe.Discretize | project2/fe.py:45-59 | The discretisation fails (dx = 1/0) iff there is one node. Otherwise Ne = Nn − 1, dx·Ne = xf − x0 and dt·Nt = tf − t0 |
| Fe.AssembledClosedForm | project2/fe.py:62-72 | After k elements, the global matrix is tridiagonal, with a00 + a11 on the diagonal and a01, a10 beside it, at the right places |
| Fe.AssembledBanded | project2/fe.py:62-72 | Entries more than one place off the diagonal stay zero |
| Fe.AssembledSymmetric | project2/fe.py:62-72 | Symmetric element matrices assemble into a symmetric matrix |
| Fe.InteriorValues | project2/fe.py:62-72 | At interior nodes K holds 2/dx and −1/dx, and M holds 2dx/3 and dx/6 |
| Fe.AssembledLoadClosedForm | project2/fe.py:62-70 | Node r gets the first integral of the element on its right plus the second integral of the element on its left |
| Fe.AssembleElements | project2/fe.py:62-72 | The element loop adds the assembled M, K and F to the arrays' old contents |
| Fe.ApplyDirichlet | project2/fe.py:76-85 | Boundary corners become 1, the rest of the boundary rows and columns become 0, and the interior is unchanged; F is zeroed at both ends |
| Fe.DirichletKeepsShape | project2/fe.py:76-85 | The boundary step keeps symmetric matrices symmetric and adds no new off-diagonal nonzeros |
| Fe.SystemMatrix | project2/fe.py:55-85 | M and K as used are the assembled element matrices after the boundary step |
| Fe.SystemMatrixShape | project2/fe.py:62-85 | The system matrices are symmetric (for symmetric elements) and tridiagonal, with identity boundary rows |
| Fe.BoundaryLoad | project2/fe.py:107-113 | The rebuilt load vector has Nn entries, is zero at both ends, and equals the assembled integrals inside |
| Fe.RebuildLoad | project2/fe.py:107-113 | The rebuild loop yields a fresh vector equal to the boundary load at time t |
| Fe.March | project2/fe.py:104-116 | After the loop, t = t0 + (Nt − 1)·dt and u is the (Nt − 1)-fold update, with the load rebuilt at each new time |
| Fe.FinalTime | project2/fe.py:104-106 | The loop stops at tf − dt, one step short of tf |
| Fe.Solution | project2/fe.py:45-135 | The driver fails iff there is a single node |
| Fe.AssembleSystem | project2/fe.py:55-85 | M, K and F are the assembled element matrices and load after the boundary step |
| Fe.Solve | project2/fe.py:45-135 | The driver computes exactly the specified solution and final time |
| Fe.SingleNodeFails | project2/fe.py:7-59 | One node passes the prompt but makes the driver fail with a division by zero |
| Fe.SolutionTime | project2/fe.py:104-135 | Whenever the driver succeeds, the time it reports is tf − dt |
| SpringSystem.AcceptMassCount | project1/springSystem.py:11-15 | The mass-count prompt accepts an integer n exactly when n ≥ 1 |
| SpringSystem.AcceptFixedEnds | project1/springSystem.py:23-27 | The fixed-ends prompt accepts exactly 1 and 2 |
| SpringSystem.AcceptPositive | project1/springSystem.py:39-44 | A mass or spring constant is rejected when it is at most 0 and accepted otherwise |
| SpringSystem.FirstAccepted | project1/springSystem.py:7-17 | The value an integer prompt settles on is admissible; without one, every parsed answer was rejected |
| SpringSystem.FirstAcceptedIsFirst | project1/springSystem.py:7-29 | The settled value is an answer that was typed, and every earlier parsed answer was rejected |
| SpringSystem.ReadCount | project1/springSystem.py:19-29 | The prompt loop settles on the first admissible answer |
| SpringSystem.Positives | project1/springSystem.py:33-46 | Only positive numbers are kept, in typed order |
| SpringSystem.PositivesOfPrefix | project1/springSystem.py:33-46 | The values kept from a prefix of the answers are a prefix of those kept from all of them |
| SpringSystem.ReadPositives | project1/springSystem.py:48-61 | `count` values are read iff the answers hold that many positives, and they are the first `count` positives |
| SpringSystem.SpringCount | project1/springSystem.py:31 | nSp = nMass + fixedEnds − 1 |
| SpringSystem.SpringCountByEnds | project1/springSystem.py:31 | nSp = nMass with one fixed end and nMass + 1 with two, and always ≥ 1 |
| SpringSystem.FreeFreeUnreachable | project1/springSystem.py:19-29 | The prompt never accepts 0 fixed ends, so the free/free branch is dead |
| SpringSystem.Add | project1/springSystem.py:69 | A1 + A2, entry by entry |
| SpringSystem.SubDiagonal | project1/springSystem.py:68 | `np.diag(v, -1)`: v on the first subdiagonal, zeros elsewhere |
| SpringSystem.BaseIncidence | project1/springSystem.py:67-69 | The base matrix is nMass×nMass |
| SpringSystem.BaseIncidenceEntries | project1/springSystem.py:67-69 | The base matrix is the incidence pattern: 1 on the diagonal, −1 just below |
| SpringSystem.BuildIncidence | project1/springSystem.py:66-78 | A has nSp rows and nMass columns. Spring r pulls mass r (+1) and mass r−1 (−1); the free/free case drops the first row |
| SpringSystem.ExtraRow | project1/springSystem.py:72-74 | The appended fixed/fixed row is zero except for −1 under the last mass |
| SpringSystem.Stiffnesses | project1/springSystem.py:80 | C is square with the spring constants on the diagonal and zeros elsewhere |
| SpringSystem.Loads | project1/springSystem.py:85 | f[i] = masses[i]·9.81 |
| SpringSystem.LoadsPositive | project1/springSystem.py:85 | Over reals, every accepted mass is positive, so every load is positive |
| SpringSystem.Setup | project1/springSystem.py:7-85 | Returns a set-up iff every prompt is eventually satisfied. A then has nSp rows and nMass columns and is the incidence pattern. C is diag of the first nSp positive spring constants typed, and f is the weights of the first nMass positive masses typed. So A's rows match C and its columns match f: AᵗCA is defined and the mismatch message is never printed |

## Left out

- The numerical library calls are parameters, and nothing is proved about
  their results:
  - `np.linalg.eig`/`eigvals`, `np.sqrt` and `np.linalg.inv`;
  - the Gaussian quadrature (`quadrature`) and the forcing function;
  - the initial and analytical solutions;
  - the two Euler update formulas.

  The model covers only what the scripts do with them. That U·S·Vᵗ reproduces A
  depends on the solver and is not stated.
- Floating point: all arithmetic is exact, and `np.isclose` is its defining
  inequality over reals.
- Input and output:
  - prompts are sequences of already-parsed answers, and end of input ends the
    model with `None`;
  - printing and plotting (`matplotlib`) are not modelled;
  - the `print` of the displacement, elongation and stress vectors in
    `springSystem.py` is not modelled.
- Svd.CheckInvertible: `Incomparable` stands for an entry that makes the
  closeness scan raise `TypeError`. Complex eigenvalues are not modelled:
  `np.isclose` compares complex values without raising, so in the source a
  complex eigenvalue does not take the "no real eigenvalues" exit. The model's
  eigenvalues are reals.
- SpringSystem.LoadsPositive: the prompts reject only answers that are at most
  0. `nan` and `inf` parse as floats and pass that test, giving a `nan` or
  infinite mass, load or spring constant. They are not reals, so the model's
  accepted values, and with them the loads, are all positive.
- SpringSystem.Positives: the same `nan` and `inf` answers are left out of the
  answers the model can represent.
- Svd.SumOfSquaresZero: states only that the radicand is nonnegative and zero
  for an all-zero matrix; the converse (a zero sum forces every entry to be
  zero) is not stated.
- Svd.RowSumOfSquaresZero: same limitation as `Svd.SumOfSquaresZero`, for a
  single row.
- Inputs with three or more axes are outside `Svd.Svd`'s precondition. NumPy
  would read only the first two axis lengths.
- The stiffness matrix K = AᵗCA, and the call to `svd` on it in
  `springSystem.py` lines 87-107, are not modelled. Their numerics are the
  parameters above.
- The reconstruction U·S·Vᵗ printed in comments is not modelled. Neither are
  `analyticalSolution`, `initialConditions` and `forcingFunction`, whose
  formulas are transcendental.
