/**
  The preconditioned conjugate gradient iteration for A u = b, with a
  preconditioner M (the Jacobi inverse diag(A)^-1 in the program), in exact
  real arithmetic. Each pass of the do-while loop computes the preconditioned
  residual, shifts the residual history, picks a search direction, moves the
  iterate along it and updates the residual; the loop stops after kappaMax
  passes or once the RMS residual err = sqrt(rk . rk / n) is at most tol.
 */
module PcgSolver {
  import opened SparseSystem
  import opened LinearAlgebra
  import opened JacobiPreconditioner

  /** Most passes allowed. */
  const KappaMax: nat := 5000
  /** Acceptable RMS residual, 1e-15. */
  const Tol: real := 0.000000000000001

  /** The solver variables: the pass count and the vectors the loop carries from pass to pass. */
  datatype State = State(kappa: nat, u: Vector, rk: Vector, rkm1: Vector, rkm2: Vector,
                         zk: Vector, zkm1: Vector, zkm2: Vector, pk: Vector, Apk: Vector)

  /** All vectors have the length n of the system. */
  predicate Sized(s: State, n: nat)
  {
    |s.u| == n && |s.rk| == n && |s.rkm1| == n && |s.rkm2| == n && |s.zk| == n
    && |s.zkm1| == n && |s.zkm2| == n && |s.pk| == n && |s.Apk| == n
  }

  /**
    The state before the first pass: iterate u0 and residual b - A u0. The
    history vectors are never read before the first pass writes them; they
    start at zero here.
   */
  function Init(A: Matrix, b: Vector, u0: Vector): (s: State)
    requires |b| == |u0|
    ensures Sized(s, |b|) && s.kappa == 0 && s.u == u0 && s.rk == Sub(b, MatVec(A, u0))
  {
    var n := |b|;
    State(0, u0, Sub(b, MatVec(A, u0)), Zeros(n), Zeros(n), Zeros(n), Zeros(n), Zeros(n), Zeros(n), Zeros(n))
  }

  /** The denominator of betak, rkm2 . zkm2 after the shift, is nonzero on every pass but the first. */
  predicate BetaDefined(s: State)
    requires Sized(s, |s.rk|)
  {
    s.kappa > 0 ==> Dot(s.rkm1, s.zkm1) != 0.0
  }

  /**
    The search direction of the pass that starts in s: on the first pass the
    preconditioned residual zk = M rk, later zk + betak pk with
    betak = (rk . zk) / (rkm1 . zkm1), both taken before the shift.
   */
  function Direction(M: Matrix, s: State): (p: Vector)
    requires Sized(s, |s.rk|) && BetaDefined(s)
    ensures |p| == |s.rk|
  {
    var zk := MatVec(M, s.rk);
    if s.kappa == 0 then zk else Add(zk, Scale(Dot(s.rk, zk) / Dot(s.rkm1, s.zkm1), s.pk))
  }

  /** Neither denominator of the pass that starts in s, rkm2 . zkm2 and pk . A pk, is zero. */
  predicate StepDefined(A: Matrix, M: Matrix, s: State)
  {
    Sized(s, |s.rk|) && BetaDefined(s) && Dot(Direction(M, s), MatVec(A, Direction(M, s))) != 0.0
  }

  /** The step length of the pass that starts in s: alphak = (rk . zk) / (pk . A pk). */
  function Alpha(A: Matrix, M: Matrix, s: State): (alpha: real)
    requires StepDefined(A, M, s)
    ensures alpha * Dot(Direction(M, s), MatVec(A, Direction(M, s))) == Dot(s.rk, MatVec(M, s.rk))
  {
    Dot(s.rk, MatVec(M, s.rk)) / Dot(Direction(M, s), MatVec(A, Direction(M, s)))
  }

  /** One pass of the loop body. */
  function Step(A: Matrix, M: Matrix, s: State): (s': State)
    requires StepDefined(A, M, s)
    ensures Sized(s', |s.rk|) && s'.kappa == s.kappa + 1
  {
    var zk := MatVec(M, s.rk);
    var pk := Direction(M, s);
    var Apk := MatVec(A, pk);
    var alphak := Alpha(A, M, s);
    State(s.kappa + 1, Add(s.u, Scale(alphak, pk)), Sub(s.rk, Scale(alphak, Apk)), s.rk, s.rkm1,
          zk, zk, s.zkm1, pk, Apk)
  }

  /**
    The order of the updates in a pass: the histories shift first (rkm2 <- rkm1 <- rk,
    zkm2 <- zkm1 <- zk); betak is then formed from the post-shift rkm1, zkm1, rkm2
    and zkm2, and alphak and the new residual from the post-shift rkm1 and zkm1:
    rk = rkm1 - alphak A pk.
   */
  lemma HistoryShift(A: Matrix, M: Matrix, s: State)
    requires StepDefined(A, M, s)
    ensures var s' := Step(A, M, s);
            && s'.rkm1 == s.rk && s'.rkm2 == s.rkm1 && s'.zkm2 == s.zkm1
            && s'.zk == s'.zkm1 == MatVec(M, s.rk)
            && (s.kappa == 0 ==> s'.pk == s'.zkm1)
            && (s.kappa > 0 ==> Dot(s'.rkm2, s'.zkm2) != 0.0
                                && s'.pk == Add(s'.zkm1, Scale(Dot(s'.rkm1, s'.zkm1) / Dot(s'.rkm2, s'.zkm2), s.pk)))
            && s'.Apk == MatVec(A, s'.pk)
            && Dot(s'.pk, s'.Apk) != 0.0
            && Alpha(A, M, s) == Dot(s'.rkm1, s'.zkm1) / Dot(s'.pk, s'.Apk)
            && s'.u == Add(s.u, Scale(Alpha(A, M, s), s'.pk))
            && s'.rk == Sub(s'.rkm1, Scale(Alpha(A, M, s), s'.Apk))
  {
  }

  /** err squared: rk . rk / n. */
  function Err2(s: State): (e2: real)
    requires |s.rk| > 0
    ensures e2 >= 0.0
  {
    DotSelfNonNegative(s.rk);
    Dot(s.rk, s.rk) / (|s.rk| as real)
  }

  /**
    The loop condition kappa < kappaMax && err > tol, with err > tol written as
    err^2 > tol^2; the two agree because tol is not negative.
   */
  predicate Continue(s: State, kappaMax: nat, tol: real)
    requires |s.rk| > 0 && tol >= 0.0
    ensures Continue(s, kappaMax, tol) ==> s.kappa < kappaMax && Dot(s.rk, s.rk) > 0.0
  {
    SquareNonNegative(tol);
    PositiveQuotient(Dot(s.rk, s.rk), |s.rk| as real);
    s.kappa < kappaMax && Err2(s) > tol * tol
  }

  lemma SquareNonNegative(x: real)
    ensures x * x >= 0.0
  {
    if x < 0.0 {
      NonNegativeProduct(-x, -x);
    } else {
      NonNegativeProduct(x, x);
    }
  }

  lemma PositiveQuotient(x: real, n: real)
    requires n > 0.0
    ensures x / n > 0.0 ==> x > 0.0
  {
    if x <= 0.0 {
      assert x / n * n == x;
    }
  }

  /** Comparing the square root with tol is comparing its square with tol^2. */
  lemma ErrTest(err: real, err2: real, tol: real)
    requires err >= 0.0 && err * err == err2 && tol >= 0.0
    ensures err > tol <==> err2 > tol * tol
  {
    assert err * err - tol * tol == (err - tol) * (err + tol);
    if err > tol {
      PositiveProduct(err - tol, err + tol);
    } else {
      NonNegativeProduct(tol - err, err + tol);
    }
  }

  /** Continue is the source's loop test on err = sqrt(Err2), for every tol >= 0. */
  lemma ContinueIsLoopTest(s: State, kappaMax: nat, tol: real, err: real)
    requires |s.rk| > 0 && tol >= 0.0 && err >= 0.0 && err * err == Err2(s)
    ensures Continue(s, kappaMax, tol) <==> s.kappa < kappaMax && err > tol
  {
    ErrTest(err, Err2(s), tol);
  }

  lemma PositiveProduct(x: real, y: real)
    requires x > 0.0 && y > 0.0
    ensures x * y > 0.0
  {
  }

  lemma NonNegativeProduct(x: real, y: real)
    requires x >= 0.0 && y >= 0.0
    ensures x * y >= 0.0
  {
  }

  /** Every pass the loop makes from s, the one it makes before testing included, is defined. */
  predicate SafeRun(A: Matrix, M: Matrix, s: State, kappaMax: nat, tol: real)
    decreases kappaMax - s.kappa
  {
    tol >= 0.0 && |s.rk| > 0 && StepDefined(A, M, s)
    && (Continue(Step(A, M, s), kappaMax, tol) ==> SafeRun(A, M, Step(A, M, s), kappaMax, tol))
  }

  /**
    The state the do-while loop leaves, started in s: a pass, then another
    while the loop test holds. The loop makes at least one pass, stops at
    kappaMax at the latest (or after its one pass if it starts there), and
    leaves a state that fails the loop test.
   */
  function Run(A: Matrix, M: Matrix, s: State, kappaMax: nat, tol: real): (r: State)
    requires SafeRun(A, M, s, kappaMax, tol)
    ensures Sized(r, |s.rk|)
    ensures r.kappa >= s.kappa + 1
    ensures r.kappa <= kappaMax || r.kappa == s.kappa + 1
    ensures !Continue(r, kappaMax, tol)
    decreases kappaMax - s.kappa
  {
    var s' := Step(A, M, s);
    if Continue(s', kappaMax, tol) then Run(A, M, s', kappaMax, tol) else s'
  }

  /** From the initial state: 1 <= kappa <= kappaMax, and kappa == kappaMax or err <= tol on exit. */
  lemma RunFromInit(A: Matrix, M: Matrix, b: Vector, u0: Vector, kappaMax: nat, tol: real)
    requires |b| == |u0| && kappaMax >= 1
    requires SafeRun(A, M, Init(A, b, u0), kappaMax, tol)
    ensures 1 <= Run(A, M, Init(A, b, u0), kappaMax, tol).kappa <= kappaMax
    ensures Run(A, M, Init(A, b, u0), kappaMax, tol).kappa == kappaMax
            || Err2(Run(A, M, Init(A, b, u0), kappaMax, tol)) <= tol * tol
  {
  }

  /** On the first pass the search direction is the preconditioned residual: pk = zk = M rk. */
  lemma FirstDirection(A: Matrix, M: Matrix, s: State)
    requires StepDefined(A, M, s) && s.kappa == 0
    ensures Step(A, M, s).pk == Step(A, M, s).zk == MatVec(M, s.rk)
  {
  }

  /**
    With the Jacobi preconditioner, the preconditioned residual of a pass is the
    residual divided componentwise by the diagonal of A.
   */
  lemma JacobiResidual(A: Matrix, s: State)
    requires NonzeroDiagonal(A, |s.rk|) && StepDefined(A, JacobiInverse(A, |s.rk|), s)
    ensures forall k :: 0 <= k < |s.rk| ==> Step(A, JacobiInverse(A, |s.rk|), s).zk[k] == s.rk[k] / Entry(A, k, k)
  {
    JacobiApply(A, s.rk);
  }

  /**
    rk stays the true residual: if rk = b - A u before a pass, then after it the
    updated rk = rkm1 - alphak A pk equals b - A u for the updated u.
   */
  lemma StepResidual(A: Matrix, M: Matrix, b: Vector, s: State)
    requires StepDefined(A, M, s) && |b| == |s.rk|
    requires s.rk == Sub(b, MatVec(A, s.u))
    ensures Step(A, M, s).rk == Sub(b, MatVec(A, Step(A, M, s).u))
    ensures Step(A, M, s).rkm1 == s.rk
  {
    ResidualUpdate(A, b, s.u, Alpha(A, M, s), Direction(M, s));
  }

  lemma {:induction false} RunResidual(A: Matrix, M: Matrix, b: Vector, s: State, kappaMax: nat, tol: real)
    requires SafeRun(A, M, s, kappaMax, tol) && |b| == |s.rk|
    requires s.rk == Sub(b, MatVec(A, s.u))
    ensures Run(A, M, s, kappaMax, tol).rk == Sub(b, MatVec(A, Run(A, M, s, kappaMax, tol).u))
    decreases kappaMax - s.kappa
  {
    var s' := Step(A, M, s);
    StepResidual(A, M, b, s);
    if Continue(s', kappaMax, tol) {
      RunResidual(A, M, b, s', kappaMax, tol);
    }
  }

  /**
    Each pass leaves the new residual orthogonal to the direction just taken,
    pk . rk = 0, provided the previous direction was orthogonal to the residual
    the pass starts from (or there was none).
   */
  lemma StepOrthogonal(A: Matrix, M: Matrix, s: State)
    requires StepDefined(A, M, s)
    requires s.kappa == 0 || Dot(s.pk, s.rk) == 0.0
    ensures Dot(Step(A, M, s).pk, Step(A, M, s).rk) == 0.0
  {
    var p := Direction(M, s);
    var q := MatVec(A, p);
    var alpha := Alpha(A, M, s);
    DirectionAgainstResidual(M, s);
    ExactLineSearch(p, s.rk, q, alpha);
    StepFields(A, M, s);
  }

  /** The direction and the residual a pass leaves, in terms of the state it starts from. */
  lemma StepFields(A: Matrix, M: Matrix, s: State)
    requires StepDefined(A, M, s)
    ensures Step(A, M, s).pk == Direction(M, s)
    ensures Step(A, M, s).rk == Sub(s.rk, Scale(Alpha(A, M, s), MatVec(A, Direction(M, s))))
  {
  }

  /**
    Stepping along p by the alpha of exact line search, alpha (p . q) = p . r,
    leaves r - alpha q orthogonal to p.
   */
  lemma ExactLineSearch(p: Vector, r: Vector, q: Vector, alpha: real)
    requires |p| == |r| == |q| && alpha * Dot(p, q) == Dot(p, r)
    ensures Dot(p, Sub(r, Scale(alpha, q))) == 0.0
  {
    DotSubScaleRight(p, r, alpha, q);
  }

  /** The direction of a pass meets the residual it starts from as zk does: pk . rk = rk . zk. */
  lemma DirectionAgainstResidual(M: Matrix, s: State)
    requires Sized(s, |s.rk|) && BetaDefined(s)
    requires s.kappa == 0 || Dot(s.pk, s.rk) == 0.0
    ensures Dot(Direction(M, s), s.rk) == Dot(s.rk, MatVec(M, s.rk))
  {
    var zk := MatVec(M, s.rk);
    DotCommutes(zk, s.rk);
    if s.kappa > 0 {
      DotAddScaleLeft(zk, Dot(s.rk, zk) / Dot(s.rkm1, s.zkm1), s.pk, s.rk);
    }
  }

  lemma {:induction false} RunOrthogonal(A: Matrix, M: Matrix, s: State, kappaMax: nat, tol: real)
    requires SafeRun(A, M, s, kappaMax, tol)
    requires s.kappa == 0 || Dot(s.pk, s.rk) == 0.0
    ensures Dot(Run(A, M, s, kappaMax, tol).pk, Run(A, M, s, kappaMax, tol).rk) == 0.0
    decreases kappaMax - s.kappa
  {
    var s' := Step(A, M, s);
    StepOrthogonal(A, M, s);
    if Continue(s', kappaMax, tol) {
      RunOrthogonal(A, M, s', kappaMax, tol);
    }
  }

  /** One pass of the loop from a state where the loop is safe to run: where it goes next. */
  lemma RunUnfold(A: Matrix, M: Matrix, s: State, kappaMax: nat, tol: real)
    requires SafeRun(A, M, s, kappaMax, tol)
    ensures StepDefined(A, M, s) && |Step(A, M, s).rk| > 0
    ensures Continue(Step(A, M, s), kappaMax, tol)
            ==> SafeRun(A, M, Step(A, M, s), kappaMax, tol)
                && Run(A, M, Step(A, M, s), kappaMax, tol) == Run(A, M, s, kappaMax, tol)
    ensures !Continue(Step(A, M, s), kappaMax, tol) ==> Step(A, M, s) == Run(A, M, s, kappaMax, tol)
  {
  }

  /**
    The loop's precondition can be met: on the one-unknown system 1 u = 1 from
    u0 = 0, with M = 1, the first pass is defined and reaches the exact solution.
   */
  lemma SafeRunExample()
    ensures SafeRun(map[(0, 0) := 1.0], map[(0, 0) := 1.0], Init(map[(0, 0) := 1.0], [1.0], [0.0]), KappaMax, Tol)
  {
    var A: Matrix := map[(0, 0) := 1.0];
    var s := Init(A, [1.0], [0.0]);
    assert MatVec(A, [0.0]) == [0.0];
    assert s.rk == [1.0];
    assert MatVec(A, [1.0]) == [1.0];
    assert Direction(A, s) == [1.0];
    assert Dot([1.0], [1.0]) == 1.0;
    var s' := Step(A, A, s);
    assert s'.rk == [0.0];
    assert Dot([0.0], [0.0]) == 0.0;
    assert !Continue(s', KappaMax, Tol);
  }

  /**
    The body of the do-while loop on the solver variables: the preconditioned
    residual, the history shift, the direction, the step along it and the new
    residual. It computes exactly one Step.
   */
  method Pass(A: Matrix, M: Matrix, kappa: nat, u: Vector, rk: Vector, rkm1: Vector, rkm2: Vector,
              zk: Vector, zkm1: Vector, zkm2: Vector, pk: Vector, Apk: Vector)
    returns (kappa': nat, u': Vector, rk': Vector, rkm1': Vector, rkm2': Vector,
             zk': Vector, zkm1': Vector, zkm2': Vector, pk': Vector, Apk': Vector)
    requires StepDefined(A, M, State(kappa, u, rk, rkm1, rkm2, zk, zkm1, zkm2, pk, Apk))
    ensures State(kappa', u', rk', rkm1', rkm2', zk', zkm1', zkm2', pk', Apk')
            == Step(A, M, State(kappa, u, rk, rkm1, rkm2, zk, zkm1, zkm2, pk, Apk))
  {
    ghost var s := State(kappa, u, rk, rkm1, rkm2, zk, zkm1, zkm2, pk, Apk);
    zk' := MatVec(M, rk);
    kappa' := kappa + 1;
    rkm2', rkm1' := rkm1, rk;
    zkm2', zkm1' := zkm1, zk';
    if kappa' == 1 {
      pk' := zk';
    } else {
      var betak := Dot(rkm1', zkm1') / Dot(rkm2', zkm2');
      pk' := Add(zkm1', Scale(betak, pk));
    }
    assert pk' == Direction(M, s);
    Apk' := MatVec(A, pk');
    var alphak := Dot(rkm1', zkm1') / Dot(pk', Apk');
    assert alphak == Alpha(A, M, s);
    u' := Add(u, Scale(alphak, pk'));
    rk' := Sub(rkm1', Scale(alphak, Apk'));
  }

  /**
    The do-while loop of the solver, from u0 and b: returns the final iterate,
    pass count and residual, which are those of Run from the initial state.
   */
  method Solve(A: Matrix, M: Matrix, b: Vector, u0: Vector) returns (u: Vector, kappa: nat, rk: Vector)
    requires |b| == |u0| > 0
    requires SafeRun(A, M, Init(A, b, u0), KappaMax, Tol)
    ensures u == Run(A, M, Init(A, b, u0), KappaMax, Tol).u
    ensures kappa == Run(A, M, Init(A, b, u0), KappaMax, Tol).kappa
    ensures rk == Run(A, M, Init(A, b, u0), KappaMax, Tol).rk
    ensures 1 <= kappa <= KappaMax
    ensures kappa == KappaMax || Dot(rk, rk) / (|b| as real) <= Tol * Tol
    ensures rk == Sub(b, MatVec(A, u))
  {
    var n := |b|;
    kappa := 0;
    u := u0;
    rk := Sub(b, MatVec(A, u));
    var rkm1, rkm2 := Zeros(n), Zeros(n);
    var zk, zkm1, zkm2 := Zeros(n), Zeros(n), Zeros(n);
    var pk, Apk := Zeros(n), Zeros(n);
    ghost var s0 := Init(A, b, u0);
    ghost var r := Run(A, M, s0, KappaMax, Tol);
    ghost var s := s0;
    var done := false;
    while !done
      invariant s == State(kappa, u, rk, rkm1, rkm2, zk, zkm1, zkm2, pk, Apk) && |rk| == n
      invariant !done ==> SafeRun(A, M, s, KappaMax, Tol) && s.kappa < KappaMax && Run(A, M, s, KappaMax, Tol) == r
      invariant done ==> s == r
      decreases if done then 0 else KappaMax - kappa
    {
      RunUnfold(A, M, s, KappaMax, Tol);
      kappa, u, rk, rkm1, rkm2, zk, zkm1, zkm2, pk, Apk :=
        Pass(A, M, kappa, u, rk, rkm1, rkm2, zk, zkm1, zkm2, pk, Apk);
      s := Step(A, M, s);
      var err2 := Dot(rk, rk) / (n as real);
      done := !(kappa < KappaMax && err2 > Tol * Tol);
      assert done == !Continue(s, KappaMax, Tol);
    }
    RunFromInit(A, M, b, u0, KappaMax, Tol);
    RunResidual(A, M, b, s0, KappaMax, Tol);
  }
}
