/**
  The diagonal (Jacobi) preconditioner M^-1 = diag(A)^-1: a sparse matrix
  holding 1/A[k][k] at each diagonal position (k, k) and nothing else.
 */
module JacobiPreconditioner {
  import opened SparseSystem
  import opened LinearAlgebra
  import opened Assembly
  import opened SystemMatrix

  /** Every diagonal entry of the n-by-n matrix A is nonzero, so diag(A) can be inverted. */
  predicate NonzeroDiagonal(A: Matrix, n: nat)
  {
    forall k :: 0 <= k < n ==> Entry(A, k, k) != 0.0
  }

  /**
    diag(A)^-1: an entry is stored exactly at the n diagonal positions, and each
    one is the reciprocal of the diagonal entry of A.
   */
  function JacobiInverse(A: Matrix, n: nat): (M: Matrix)
    requires NonzeroDiagonal(A, n)
    ensures forall r: nat, c: nat :: (r, c) in M <==> r == c && r < n
    ensures forall k :: 0 <= k < n ==> Entry(M, k, k) * Entry(A, k, k) == 1.0
    ensures forall r: nat, c: nat :: r != c ==> Entry(M, r, c) == 0.0
  {
    map k: nat | k < n :: (k, k) := 1.0 / Entry(A, k, k)
  }

  /** Applying M^-1 divides each component by the diagonal entry of its row: (M^-1 v)[k] = v[k] / A[k][k]. */
  lemma JacobiApply(A: Matrix, v: Vector)
    requires NonzeroDiagonal(A, |v|)
    ensures forall k :: 0 <= k < |v| ==> MatVec(JacobiInverse(A, |v|), v)[k] == v[k] / Entry(A, k, k)
  {
    var M := JacobiInverse(A, |v|);
    forall k | 0 <= k < |v| ensures MatVec(M, v)[k] == v[k] / Entry(A, k, k) {
      RowDotSingle(M, k, k, v);
      Reciprocal(Entry(M, k, k), Entry(A, k, k), v[k]);
    }
  }

  lemma Reciprocal(m: real, a: real, x: real)
    requires a != 0.0 && m * a == 1.0
    ensures m * x == x / a
  {
    assert m == 1.0 / a;
  }

  /** The assembled matrix has a positive, hence invertible, diagonal, so M^-1 exists for it. */
  lemma AssembledDiagonalInvertible(g: Mesh)
    requires ValidMesh(g)
    ensures NonzeroDiagonal(AssembledMatrix(g), Size(g))
  {
    forall k | 0 <= k < Size(g) ensures Entry(AssembledMatrix(g), k, k) != 0.0 {
      DiagonalPositive(g, k);
    }
  }
}
