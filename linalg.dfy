/**
  The dense vector operations the solver uses on Eigen vectors of length n:
  dot products, sums, differences, scaling, and the product of a sparse matrix
  with a vector, all in exact real arithmetic.
 */
module LinearAlgebra {
  import opened SparseSystem

  type Vector = seq<real>

  /** The zero vector of length n. */
  function Zeros(n: nat): (v: Vector)
    ensures |v| == n && forall k :: 0 <= k < n ==> v[k] == 0.0
  {
    seq(n, k => 0.0)
  }

  /** a . b = sum over k of a[k] * b[k]. */
  function Dot(a: Vector, b: Vector): real
    requires |a| == |b|
  {
    if |a| == 0 then 0.0 else Dot(a[..|a| - 1], b[..|a| - 1]) + a[|a| - 1] * b[|a| - 1]
  }

  function Add(a: Vector, b: Vector): (v: Vector)
    requires |a| == |b|
    ensures |v| == |a| && forall k :: 0 <= k < |v| ==> v[k] == a[k] + b[k]
  {
    seq(|a|, k requires 0 <= k < |a| => a[k] + b[k])
  }

  function Sub(a: Vector, b: Vector): (v: Vector)
    requires |a| == |b|
    ensures |v| == |a| && forall k :: 0 <= k < |v| ==> v[k] == a[k] - b[k]
  {
    seq(|a|, k requires 0 <= k < |a| => a[k] - b[k])
  }

  function Scale(c: real, a: Vector): (v: Vector)
    ensures |v| == |a| && forall k :: 0 <= k < |v| ==> v[k] == c * a[k]
  {
    seq(|a|, k requires 0 <= k < |a| => c * a[k])
  }

  /** Row r of A times v: the sum over columns c < |v| of A[r][c] * v[c]. */
  function RowDot(A: Matrix, r: nat, v: Vector): real
  {
    if |v| == 0 then 0.0 else RowDot(A, r, v[..|v| - 1]) + Entry(A, r, |v| - 1) * v[|v| - 1]
  }

  /** A * v for an n-by-n matrix A and a vector v of length n. */
  function MatVec(A: Matrix, v: Vector): (w: Vector)
    ensures |w| == |v| && forall r :: 0 <= r < |w| ==> w[r] == RowDot(A, r, v)
  {
    seq(|v|, r requires 0 <= r < |v| => RowDot(A, r, v))
  }

  /** a . a is a sum of squares, so it is never negative. */
  lemma {:induction false} DotSelfNonNegative(a: Vector)
    ensures Dot(a, a) >= 0.0
  {
    if |a| > 0 {
      DotSelfNonNegative(a[..|a| - 1]);
      assert a[|a| - 1] * a[|a| - 1] >= 0.0;
    }
  }

  /** The dot product is symmetric. */
  lemma {:induction false} DotCommutes(a: Vector, b: Vector)
    requires |a| == |b|
    ensures Dot(a, b) == Dot(b, a)
  {
    if |a| > 0 {
      DotCommutes(a[..|a| - 1], b[..|a| - 1]);
    }
  }

  lemma AddPrefix(a: Vector, b: Vector, m: nat)
    requires |a| == |b| && m <= |a|
    ensures Add(a, b)[..m] == Add(a[..m], b[..m])
  {
    assert forall k :: 0 <= k < m ==> Add(a, b)[..m][k] == Add(a[..m], b[..m])[k];
  }

  lemma SubPrefix(a: Vector, b: Vector, m: nat)
    requires |a| == |b| && m <= |a|
    ensures Sub(a, b)[..m] == Sub(a[..m], b[..m])
  {
    assert forall k :: 0 <= k < m ==> Sub(a, b)[..m][k] == Sub(a[..m], b[..m])[k];
  }

  lemma ScalePrefix(c: real, a: Vector, m: nat)
    requires m <= |a|
    ensures Scale(c, a)[..m] == Scale(c, a[..m])
  {
    assert forall k :: 0 <= k < m ==> Scale(c, a)[..m][k] == Scale(c, a[..m])[k];
  }

  /** Dot, split off its last term. */
  lemma DotLast(a: Vector, b: Vector, m: nat)
    requires |a| == |b| == m + 1
    ensures Dot(a, b) == Dot(a[..m], b[..m]) + a[m] * b[m]
  {
  }

  /** (a + b) . r = a . r + b . r. */
  lemma {:induction false} DotAddLeft(a: Vector, b: Vector, r: Vector)
    requires |a| == |b| == |r|
    ensures Dot(Add(a, b), r) == Dot(a, r) + Dot(b, r)
  {
    if |a| > 0 {
      var m := |a| - 1;
      var v := Add(a, b);
      AddPrefix(a, b, m);
      DotAddLeft(a[..m], b[..m], r[..m]);
      DotLast(v, r, m);
      DotLast(a, r, m);
      DotLast(b, r, m);
      assert v[m] * r[m] == a[m] * r[m] + b[m] * r[m];
    }
  }

  /** (c a) . r = c (a . r). */
  lemma {:induction false} DotScaleLeft(c: real, a: Vector, r: Vector)
    requires |a| == |r|
    ensures Dot(Scale(c, a), r) == c * Dot(a, r)
  {
    if |a| > 0 {
      var m := |a| - 1;
      var v := Scale(c, a);
      ScalePrefix(c, a, m);
      DotScaleLeft(c, a[..m], r[..m]);
      DotLast(v, r, m);
      DotLast(a, r, m);
      ScaleStep(c, Dot(a[..m], r[..m]), a[m], r[m], Dot(a, r));
    }
  }

  /** (a - b) . r = a . r - b . r, in the second argument: p . (r - q) = p . r - p . q. */
  lemma {:induction false} DotSubRight(p: Vector, r: Vector, q: Vector)
    requires |p| == |r| == |q|
    ensures Dot(p, Sub(r, q)) == Dot(p, r) - Dot(p, q)
  {
    if |p| > 0 {
      var m := |p| - 1;
      var v := Sub(r, q);
      SubPrefix(r, q, m);
      DotSubRight(p[..m], r[..m], q[..m]);
      DotLast(p, v, m);
      DotLast(p, r, m);
      DotLast(p, q, m);
      assert p[m] * v[m] == p[m] * r[m] - p[m] * q[m];
    }
  }

  /** (z + beta p) . r = z . r + beta (p . r). */
  lemma DotAddScaleLeft(z: Vector, beta: real, p: Vector, r: Vector)
    requires |z| == |p| == |r|
    ensures Dot(Add(z, Scale(beta, p)), r) == Dot(z, r) + beta * Dot(p, r)
  {
    DotAddLeft(z, Scale(beta, p), r);
    DotScaleLeft(beta, p, r);
  }

  /** p . (r - alpha q) = p . r - alpha (p . q). */
  lemma DotSubScaleRight(p: Vector, r: Vector, alpha: real, q: Vector)
    requires |p| == |r| == |q|
    ensures Dot(p, Sub(r, Scale(alpha, q))) == Dot(p, r) - alpha * Dot(p, q)
  {
    DotSubRight(p, r, Scale(alpha, q));
    DotScaleRight(p, alpha, q);
  }

  /** p . (c q) = c (p . q). */
  lemma {:induction false} DotScaleRight(p: Vector, c: real, q: Vector)
    requires |p| == |q|
    ensures Dot(p, Scale(c, q)) == c * Dot(p, q)
  {
    if |p| > 0 {
      var m := |p| - 1;
      var v := Scale(c, q);
      ScalePrefix(c, q, m);
      DotScaleRight(p[..m], c, q[..m]);
      DotLast(p, v, m);
      DotLast(p, q, m);
      ScaleStep(c, Dot(p[..m], q[..m]), p[m], q[m], Dot(p, q));
    }
  }

  /** Row r of A times v, split off its last column. */
  lemma RowDotLast(A: Matrix, r: nat, v: Vector, m: nat)
    requires |v| == m + 1
    ensures RowDot(A, r, v) == RowDot(A, r, v[..m]) + Entry(A, r, m) * v[m]
  {
  }

  /** Row r of A (u + w) = row r of A u + row r of A w. */
  lemma {:induction false} RowDotAdd(A: Matrix, r: nat, u: Vector, w: Vector)
    requires |u| == |w|
    ensures RowDot(A, r, Add(u, w)) == RowDot(A, r, u) + RowDot(A, r, w)
  {
    if |u| > 0 {
      var m := |u| - 1;
      var v := Add(u, w);
      AddPrefix(u, w, m);
      RowDotAdd(A, r, u[..m], w[..m]);
      RowDotLast(A, r, v, m);
      RowDotLast(A, r, u, m);
      RowDotLast(A, r, w, m);
      var e := Entry(A, r, m);
      assert e * v[m] == e * u[m] + e * w[m];
    }
  }

  /** Row r of A (c u) = c (row r of A u). */
  lemma {:induction false} RowDotScale(A: Matrix, r: nat, c: real, u: Vector)
    ensures RowDot(A, r, Scale(c, u)) == c * RowDot(A, r, u)
  {
    if |u| > 0 {
      var m := |u| - 1;
      var v := Scale(c, u);
      ScalePrefix(c, u, m);
      RowDotScale(A, r, c, u[..m]);
      RowDotLast(A, r, v, m);
      RowDotLast(A, r, u, m);
      ScaleStep(c, RowDot(A, r, u[..m]), Entry(A, r, m), u[m], RowDot(A, r, u));
    }
  }

  /** Row r of A (u + alpha p) = (row r of A u) + alpha (row r of A p). */
  lemma RowDotAddScale(A: Matrix, r: nat, u: Vector, alpha: real, p: Vector)
    requires |u| == |p|
    ensures RowDot(A, r, Add(u, Scale(alpha, p))) == RowDot(A, r, u) + alpha * RowDot(A, r, p)
  {
    RowDotAdd(A, r, u, Scale(alpha, p));
    RowDotScale(A, r, alpha, p);
  }

  /** The step of the scaling inductions: c d + (c x) y = c d + x (c y) = c (d + x y). */
  lemma ScaleStep(c: real, d: real, x: real, y: real, s: real)
    requires s == d + x * y
    ensures c * d + (c * x) * y == c * s && c * d + x * (c * y) == c * s
  {
    assert (c * x) * y == c * (x * y) == x * (c * y);
  }

  /** A (u + alpha p) = A u + alpha (A p). */
  lemma MatVecAddScale(A: Matrix, u: Vector, alpha: real, p: Vector)
    requires |u| == |p|
    ensures MatVec(A, Add(u, Scale(alpha, p))) == Add(MatVec(A, u), Scale(alpha, MatVec(A, p)))
  {
    var lhs, rhs := MatVec(A, Add(u, Scale(alpha, p))), Add(MatVec(A, u), Scale(alpha, MatVec(A, p)));
    forall r | 0 <= r < |u| ensures lhs[r] == rhs[r] {
      RowDotAddScale(A, r, u, alpha, p);
    }
  }

  /**
    Moving the iterate u along p by alpha moves the residual b - A u by
    -alpha (A p): b - A (u + alpha p) = (b - A u) - alpha (A p).
   */
  lemma ResidualUpdate(A: Matrix, b: Vector, u: Vector, alpha: real, p: Vector)
    requires |b| == |u| == |p|
    ensures Sub(b, MatVec(A, Add(u, Scale(alpha, p)))) == Sub(Sub(b, MatVec(A, u)), Scale(alpha, MatVec(A, p)))
  {
    MatVecAddScale(A, u, alpha, p);
  }

  /**
    A row with at most one stored column k (k < |v|) picks out that column:
    row r of A v is A[r][k] * v[k].
   */
  lemma {:induction false} RowDotSingle(A: Matrix, r: nat, k: nat, v: Vector)
    requires forall c: nat :: c != k ==> Entry(A, r, c) == 0.0
    ensures RowDot(A, r, v) == if k < |v| then Entry(A, r, k) * v[k] else 0.0
  {
    if |v| > 0 {
      RowDotSingle(A, r, k, v[..|v| - 1]);
    }
  }
}
