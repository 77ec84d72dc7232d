# Finite-difference Poisson solver: assembly and PCG

This project is a Dafny model of the numerical core of a small C++ program. The program solves the Poisson problem
`-(u_xx + u_yy) = f` on a rectangular, possibly non-uniform grid of `imax` by `jmax` points. It uses a five-point
finite-difference scheme with Dirichlet boundary values. The model covers two parts of `main.cpp`.

**Assembly of A u = b.**
- Grid point `(i, j)` is unknown number `idx = j*imax + i` (module `GridIndex`).
- The nested interior loops push a five-entry stencil row of `(row, col, value)` triplets per interior point. They
  also write the source term into `b`. The weights come from the four one-sided spacings (module
  `StencilCoefficients`).
- Four edge loops follow: South, North, West, East. Each pushes an identity triplet `(idx, idx, 1)` per boundary
  point and writes the boundary value into both `b[idx]` and `u[idx]` (module `Assembly`, arrays `b` and `u`).
- The triplet list becomes the sparse matrix by summing the values that share a position, as `setFromTriplets` does
  (module `SparseSystem`).
- Module `SystemMatrix` proves the shape of the assembled matrix:
  - every grid point owns exactly one row;
  - interior rows are stencil rows and boundary rows are identity rows;
  - no position is pushed twice;
  - the diagonal is positive;
  - the triplet count is `5(imax-2)(jmax-2) + 2(imax-2) + 2 jmax`.

**Solution by preconditioned conjugate gradients.**
- The Jacobi preconditioner `M^-1 = diag(A)^-1` is module `JacobiPreconditioner`.
- The do-while PCG loop is module `PcgSolver`, over the vector operations of module `LinearAlgebra`.
- The loop is a method `Solve` that carries the same variables as the source (`kappa`, `u`, `rk`, `rkm1`, `rkm2`,
  `zk`, `zkm1`, `zkm2`, `pk`, `Apk`). It is proved equal to a step function `Step` iterated by `Run`.
- `PcgSolver` proves:
  - the iteration bound and the exit condition;
  - the special case of the first pass;
  - the order of the history shift;
  - that `rk` stays the true residual `b - A u`;
  - that each new residual is orthogonal to the direction just taken.

All floating-point quantities are Dafny `real`s.

Corner points lie on two edges, so they could receive two identity triplets, which would make the corner diagonal 2.
In the source the South and North loops run over `i = 1 .. imax-2` only, so only West and East visit the corners.
Each corner gets exactly one triplet (`Assembly.BoundaryVisitsOnce`, `SystemMatrix.TripletsDistinct`,
`SystemMatrix.BoundaryRow`).

## Model

| member | source | states |
|---|---|---|
| GridIndex.Flatten | main.cpp:66 | the index `idx = j*imax + i` of point `(i, j)`: row by row, row `j` takes the block `j*imax .. (j+1)*imax - 1` and `i` is the offset in it |
| GridIndex.FlattenInRange | main.cpp:30 | every grid point `(i, j)` with `i < imax`, `j < jmax` has an index below `n = imax*jmax` |
| GridIndex.DivModOfFlatten | main.cpp:66 | `idx % imax` and `idx / imax` recover `i` and `j` from `idx = j*imax + i` |
| GridIndex.FlattenInjective | main.cpp:66 | two grid points with the same index are the same point |
| GridIndex.UnflattenInRange | main.cpp:30 | every index `k` is the index of the point it decodes to, and `k < n` exactly when its decoded row is below `jmax` |
| GridIndex.CountInteriorPoints | main.cpp:56-57 | the nested interior loops visit each point with `1 <= i <= imax-2`, `1 <= j <= jmax-2` exactly once and no other point |
| GridIndex.CountRowPoints | main.cpp:80 | an `i = 1 .. imax-2` edge loop visits each point of its row but the two corners exactly once |
| GridIndex.CountColumnPoints | main.cpp:96 | a `j = 0 .. jmax-1` edge loop visits each point of its column, corners included, exactly once |
| GridIndex.LengthInteriorPoints | main.cpp:56-57 | the interior loops make `(jmax-2)(imax-2)` visits |
| StencilCoefficients.Coefficients | main.cpp:60-72 | for positive spacings the five weights sum to zero, the centre weight is positive and the four neighbour weights are negative |
| StencilCoefficients.AxisMoments | main.cpp:68-72 | along one axis the three weights annihilate constants and linear functions and give -2 on `t*t` |
| StencilCoefficients.UniformGrid | main.cpp:68-72 | with all spacings equal to `h` the stencil is `4/h^2` at the centre and `-1/h^2` at each neighbour |
| StencilCoefficients.ExactOnQuadratics | main.cpp:60-72 | on any positive spacings the stencil applied to a quadratic gives `-(q_xx + q_yy)` exactly: the stencil is exact on quadratics (consistency), and second order on a uniform grid |
| SparseSystem.SetFromTriplets | main.cpp:111 | an entry is stored exactly at the positions some triplet names, and its value is the sum of the values of the triplets there |
| SparseSystem.SumAtDistinct | main.cpp:111 | when no position repeats, the entry at a position equals the value of the one triplet there, and is 0 where no triplet is |
| SparseSystem.SumAtRowEntries | main.cpp:111 | entry `(r, c)` depends only on the triplets of row `r` |
| SparseSystem.DistinctPairsByRows | main.cpp:111 | a triplet list has no repeated position when none of its rows has one |
| Assembly.StencilRow | main.cpp:66-72 | the five triplets pushed for an interior point: all in row `idx`, the third on the diagonal with a positive weight, and their five weights summing to zero |
| Assembly.RowTriplets | main.cpp:66-106 | the triplets a visit pushes, all in the point's own row: five for an interior point, and for a boundary point exactly the one identity triplet `(idx, idx, 1)` |
| Assembly.BoundaryValue | main.cpp:83-107 | the boundary value of a point is that of the edge loop that visits it: West at `i = 0`, East at `i = imax-1`, corners included, South at `j = 0` and North at `j = jmax-1` for `1 <= i <= imax-2` |
| Assembly.Assemble | main.cpp:48-109 | the loops produce the triplet list `Triplets(g)` and a fresh `b` of length `n` holding the source term at interior points and the boundary value elsewhere; `u` takes the boundary value at boundary points and keeps its prior contents inside |
| Assembly.AssembleLoops | main.cpp:56-109 | the five loops push `Triplets(g)`, write `b` along the full visit order and write `u` along the boundary order |
| Assembly.AssembleInterior | main.cpp:56-77 | the interior loops push the triplets of the interior points row by row and write the source term into `b` at each |
| Assembly.AssembleInteriorRow | main.cpp:57-76 | one pass of the inner `i` loop visits the interior points of row `j` in order |
| Assembly.VisitInteriorPoint | main.cpp:59-75 | one interior point pushes its South, West, centre, East and North triplets in that order and sets `b[idx]` to the source term |
| Assembly.AssembleBoundary | main.cpp:78-109 | the four edge loops run South, North, West, East in that order |
| Assembly.AssembleBoundaryColumns | main.cpp:94-109 | the West loop then the East loop push one identity triplet per point of their column, corners included, and write the edge value into `b` and `u` |
| Assembly.AssembleEdgeRow | main.cpp:78-93 | the South or North loop pushes one identity triplet per point `i = 1 .. imax-2` and writes that edge's value into `b` and `u` |
| Assembly.AssembleEdgeColumn | main.cpp:94-109 | the West or East loop pushes one identity triplet per point `j = 0 .. jmax-1` and writes that edge's value into `b` and `u` |
| Assembly.VisitBoundaryPoint | main.cpp:81-84 | one boundary point pushes `(idx, idx, 1)` and writes its boundary value into `b[idx]` and `u[idx]` |
| Assembly.EdgeValues | main.cpp:83 | each edge array holds, at the points its loop visits, the value the model assigns to that boundary point |
| Assembly.WriteOrderVisitsOnce | main.cpp:56-109 | the five loops visit every grid point exactly once and nothing outside the grid |
| Assembly.BoundaryVisitsOnce | main.cpp:78-109 | the edge loops visit each boundary point, corners included, exactly once and no interior point |
| Assembly.WriteOrderLength | main.cpp:30 | the loops make exactly `n = imax*jmax` visits |
| Assembly.WrittenAt | main.cpp:75 | after a sequence of visits, the entry of a grid point holds its value if visited and is untouched otherwise |
| Assembly.AssembledValues | main.cpp:49-108 | after the loops, `b` holds the source term or the boundary value at every point, and `u` holds the boundary value at boundary points and its prior contents at interior points |
| Assembly.EmitAllAppend | main.cpp:55 | visiting one list of points and then another pushes the triplets of the first, then those of the second |
| SystemMatrix.AssembledMatrix | main.cpp:111 | `A = setFromTriplets(coefficients)` on the assembled list; every stored entry has row and column below `n` |
| SystemMatrix.StencilRowShape | main.cpp:66-72 | an interior point pushes five triplets, all in its own row, at five distinct columns inside `[0, n)` |
| SystemMatrix.RowOfEmitAll | main.cpp:56-109 | when points are visited at most once, the triplets in the row of a point are exactly the ones pushed for it |
| SystemMatrix.TripletsOfRow | main.cpp:56-109 | row `idx(p)` of the triplet list holds exactly the triplets pushed for `p` |
| SystemMatrix.TripletsInRange | main.cpp:56-109 | every triplet has row and column in `[0, n)` |
| SystemMatrix.TripletsDistinct | main.cpp:56-111 | no `(row, col)` position is pushed twice, so `setFromTriplets` never sums two values |
| SystemMatrix.MatrixRow | main.cpp:111 | the entries of row `idx(p)` come from the triplets of `p` alone |
| SystemMatrix.BoundaryRow | main.cpp:78-111 | the row of a boundary point is an identity row: 1 on the diagonal, 0 elsewhere |
| SystemMatrix.InteriorRow | main.cpp:66-72 | the row of an interior point holds the five stencil weights at the columns of the point and its four neighbours, and 0 at every other column |
| SystemMatrix.DiagonalPositive | main.cpp:70 | every diagonal entry `A[k][k]` with `k < n` is positive |
| SystemMatrix.InteriorRowSum | main.cpp:68-72 | an interior row of `A` sums to zero, with a positive diagonal and negative neighbour entries |
| SystemMatrix.OutsideIsZero | main.cpp:48 | `A` is `n` by `n`: nothing is stored in a row or column at or beyond `n` |
| SystemMatrix.TripletCount | main.cpp:56-109 | the loops push `5(imax-2)(jmax-2) + 2(imax-2) + 2 jmax` triplets |
| LinearAlgebra.DotSelfNonNegative | main.cpp:165 | `rk . rk` is never negative, so the square root of `err` is defined |
| LinearAlgebra.DotCommutes | main.cpp:153 | the dot product is symmetric |
| LinearAlgebra.DotAddScaleLeft | main.cpp:154 | `(z + beta p) . r = z . r + beta (p . r)` |
| LinearAlgebra.DotSubScaleRight | main.cpp:163 | `p . (r - alpha q) = p . r - alpha (p . q)` |
| LinearAlgebra.MatVecAddScale | main.cpp:158-160 | `A (u + alpha p) = A u + alpha (A p)` |
| LinearAlgebra.ResidualUpdate | main.cpp:160-163 | moving `u` by `alpha p` moves `b - A u` by `-alpha (A p)` |
| LinearAlgebra.RowDotSingle | main.cpp:122 | a row with one stored column `k` multiplies out to `A[r][k] * v[k]` |
| JacobiPreconditioner.JacobiInverse | main.cpp:122 | `M^-1` stores exactly the `n` diagonal positions, `M^-1[k][k] * A[k][k] = 1`, and every off-diagonal entry is 0 |
| JacobiPreconditioner.JacobiApply | main.cpp:143 | applying `M^-1` divides each component by the diagonal entry of its row |
| JacobiPreconditioner.AssembledDiagonalInvertible | main.cpp:122 | the assembled matrix has a nonzero diagonal, so its Jacobi inverse exists |
| PcgSolver.Init | main.cpp:129-138 | the loop starts at `kappa = 0` with iterate `u0` and residual `rk = b - A u0` |
| PcgSolver.Direction | main.cpp:151-155 | the direction of a pass, of length `n`: `zk` on the first pass, `zk + betak pk` with `betak = (rk . zk) / (rkm1 . zkm1)` (pre-shift names) later |
| PcgSolver.Alpha | main.cpp:159 | `alphak` solves the line-search equation `alphak (pk . A pk) = rk . zk` |
| PcgSolver.Step | main.cpp:143-163 | one pass raises `kappa` by exactly 1 and keeps every vector at length `n` |
| PcgSolver.HistoryShift | main.cpp:143-163 | a pass shifts `rkm2 <- rkm1 <- rk` and `zkm2 <- zkm1 <- zk` first; it then takes `pk = zk` on the first pass and `pk = zkm1 + betak pk` with `betak = (rkm1 . zkm1) / (rkm2 . zkm2)` in post-shift names later, then forms `alphak` and `rk = rkm1 - alphak Apk` from the post-shift `rkm1`, `zkm1` |
| PcgSolver.FirstDirection | main.cpp:151 | on the first pass the direction is the preconditioned residual: `pk = zk = M^-1 rk` |
| PcgSolver.JacobiResidual | main.cpp:143 | with the Jacobi preconditioner, `zk[k] = rk[k] / A[k][k]` |
| PcgSolver.Err2 | main.cpp:165 | `err^2 = rk . rk / n`, which is never negative |
| PcgSolver.Continue | main.cpp:168 | the loop test `kappa < kappaMax && err > tol` for a tolerance `tol >= 0`; the loop only continues below `kappaMax` and with a nonzero residual |
| PcgSolver.ContinueIsLoopTest | main.cpp:165-168 | for every `tol >= 0` and `err = sqrt(rk . rk / n)`, `Continue` holds exactly when `kappa < kappaMax && err > tol` |
| PcgSolver.Run | main.cpp:140-168 | the do-while loop makes at least one pass, stops at `kappaMax` at the latest, and leaves a state that fails the loop test |
| PcgSolver.RunFromInit | main.cpp:129-168 | from the initial state, `1 <= kappa <= kappaMax` on exit, and `kappa == kappaMax` or `err^2 <= tol^2`, which is `err <= tol` since `tol >= 0` |
| PcgSolver.ErrTest | main.cpp:165-168 | for `err = sqrt(err2)`, the test `err > tol` is the test `err2 > tol^2` |
| PcgSolver.StepResidual | main.cpp:147-163 | if `rk = b - A u` before a pass, it holds after it, and the pass's `rkm1` is the old `rk` |
| PcgSolver.RunResidual | main.cpp:138-168 | on exit from the loop, `rk = b - A u` |
| PcgSolver.DirectionAgainstResidual | main.cpp:151-154 | the direction meets the residual as `zk` does: `pk . rk = rk . zk`, given the previous direction was orthogonal to `rk` |
| PcgSolver.ExactLineSearch | main.cpp:159-163 | stepping along `p` by `alpha` with `alpha (p . Ap) = p . r` leaves the new residual orthogonal to `p` |
| PcgSolver.StepOrthogonal | main.cpp:150-163 | each pass leaves the new residual orthogonal to the direction just taken |
| PcgSolver.RunOrthogonal | main.cpp:140-168 | on exit from the loop, the last direction is orthogonal to the final residual |
| PcgSolver.RunUnfold | main.cpp:168 | after one pass, the loop either stops in that pass's state or continues with the same final state |
| PcgSolver.Pass | main.cpp:143-163 | the loop body, on the solver variables, computes exactly one `Step` |
| PcgSolver.SafeRunExample | main.cpp:129-168 | the precondition of the loop can be met: on the system `1 u = 1` from `u0 = 0` with `M = 1`, every pass is defined |
| PcgSolver.Solve | main.cpp:129-168 | the do-while loop returns the `u`, `kappa` and `rk` of `Run` from the initial state, with `1 <= kappa <= kappaMax`, `kappa == kappaMax` or `err <= tol`, and `rk = b - A u` |

## Left out

- Floating point: every `f64` is a `real`, so rounding, overflow, infinities and NaN are not modelled.
- `FATAL_ITERATION` (`src/main/core/fatals.hpp`, used at line 166) is not modelled. It tests `err` for NaN and ends the process. Over the reals `err` is never NaN. `FATAL_ASSERT`, which ends the process on a false condition, is not used by `main.cpp`.
- PcgSolver.Continue: compares `err^2 = rk . rk / n` with `tol^2` instead of taking the square root. It requires `tol >= 0` (the program's `tol` is `1e-15`), and for such `tol` `PcgSolver.ContinueIsLoopTest` proves the two tests agree. `SafeRun`, `Run` and `RunFromInit` carry the same condition.
- PcgSolver.SafeRun: the source divides by `rkm2 . zkm2` (line 153), `pk . Apk` (line 159) and `A[k][k]` (line 122) without a guard. The model requires these to be nonzero along the whole run (`SafeRun`, `NonzeroDiagonal`) instead of modelling a division by zero.
- The initial `err = 1/0.0` (line 132) is not modelled. The do-while loop overwrites `err` before it first tests it, so that value is never read.
- Uninitialised Eigen vectors: `rkm1`, `rkm2`, `zk`, `zkm1`, `zkm2`, `pk` and `Apk` start as zero vectors in `Init`. The first pass does read `rkm1` and `zkm1`: it copies them into `rkm2` and `zkm2` (lines 147–148). No value from before the first pass reaches a result, because `rkm2` and `zkm2` are read only at line 153, from the second pass on, after that pass has overwritten them. The interior of `u` is whatever the caller passes in and is never written by the assembly.
- Grid and boundary setup (lines 36–45, `setLinSpaced`, `Eigen::sin`): the grid is taken as any strictly increasing coordinate sequences with at least two points each. The four edge arrays are parameters.
- `valueSource` is not part of this model. It is a function parameter `source`.
- Assembly.Assemble: assumes `imax*jmax < 2^31` rather than modelling overflow. The `u32` index arithmetic would wrap at `2^32`. Each `Eigen::Triplet<f64>` stores its indices in Eigen's default `int` index type, so `2^31` is the limit that applies. It also requires `imax, jmax >= 2`, as every grid in the program has.
- Eigen internals are not modelled. That covers the storage of `SparseMatrix`, `asDiagonal().inverse()` and Eigen's dot product. A sparse matrix is a map from `(row, col)` to its stored value.
- LinearAlgebra.MatVec: sums only the columns below the vector length `n`. The product matches Eigen's only for an `n` by `n` matrix, and `SystemMatrix.OutsideIsZero` proves the assembled matrix is one.
- PcgSolver.Solve: takes and returns vectors as values instead of updating Eigen vectors in place. There is no aliasing between them in the source.
- PcgSolver.Solve: does not prove convergence or accuracy. Those depend on the spectrum of a matrix whose boundary rows break its symmetry, and on rounding.
- No single method runs assembly and then the solve. The program passes `A`, `b` and the seeded `u` from one to the other. `JacobiPreconditioner.AssembledDiagonalInvertible` supplies the link the preconditioner needs.
- Not modelled: the binary export of the solution (lines 181–199, file I/O with `f32` truncation), the logging calls (lines 113, 167, 201), the commented-out SparseLU solve (lines 171–176) and the plotting script `post.py`.
