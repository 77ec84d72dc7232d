/**
  The matrix A = setFromTriplets(coefficients) of the assembled system: every
  row is the row of exactly one grid point, the stencil row of an interior
  point or the identity row of a boundary point, and no (row, col) position
  receives two triplets, so nothing is summed.
 */
module SystemMatrix {
  import opened GridIndex
  import opened StencilCoefficients
  import opened SparseSystem
  import opened Assembly

  /** A, as built from the triplet list of the assembly loops. */
  function AssembledMatrix(g: Mesh): (A: Matrix)
    requires ValidMesh(g)
    ensures forall r: nat, c: nat :: (r, c) in A ==> r < Size(g) && c < Size(g)
  {
    TripletsInRange(g);
    SetFromTriplets(Triplets(g))
  }

  /**
    The five triplets of an interior point lie in its own row, at the columns of
    its South, West, centre, East and North neighbours, all inside the grid and
    all different.
   */
  lemma StencilRowShape(g: Mesh, i: nat, j: nat)
    requires ValidMesh(g) && 1 <= i < |g.x| - 1 && 1 <= j < |g.y| - 1
    ensures |StencilRow(g, i, j)| == 5
    ensures forall k :: 0 <= k < 5 ==> StencilRow(g, i, j)[k].row == Index(g, Point(i, j))
    ensures forall k :: 0 <= k < 5 ==> StencilRow(g, i, j)[k].col < Size(g)
    ensures DistinctPairs(StencilRow(g, i, j))
  {
    var imax, jmax := |g.x|, |g.y|;
    var idx := j * imax + i;
    assert (j - 1) * imax + i == idx - imax;
    assert (j + 1) * imax + i == idx + imax;
    FlattenInRange(imax, jmax, i, j + 1);
  }

  /** The triplets pushed for a grid point lie in its row, inside the grid, at distinct columns. */
  lemma RowTripletsShape(g: Mesh, p: Point)
    requires ValidMesh(g) && InGrid(g, p)
    ensures forall k :: 0 <= k < |RowTriplets(g, p)| ==> RowTriplets(g, p)[k].row == Index(g, p)
    ensures forall k :: 0 <= k < |RowTriplets(g, p)| ==> RowTriplets(g, p)[k].col < Size(g)
    ensures DistinctPairs(RowTriplets(g, p))
  {
    if IsInterior(g, p) {
      StencilRowShape(g, p.i, p.j);
    } else {
      FlattenInRange(|g.x|, |g.y|, p.i, p.j);
    }
  }

  /**
    Visiting grid points ps, each at most once, the triplets in the row of grid
    point p are exactly those pushed for p, or none if p is not visited.
   */
  lemma {:induction false} RowOfEmitAll(g: Mesh, ps: seq<Point>, p: Point)
    requires ValidMesh(g) && InGrid(g, p) && Count(ps, p) <= 1
    requires forall k :: 0 <= k < |ps| ==> InGrid(g, ps[k])
    ensures RowEntries(EmitAll(g, ps), Index(g, p)) == if p in ps then RowTriplets(g, p) else []
  {
    if ps != [] {
      var prefix, q := ps[..|ps| - 1], ps[|ps| - 1];
      assert ps == prefix + [q];
      RowOfEmitAll(g, prefix, p);
      RowEntriesAppend(EmitAll(g, prefix), RowTriplets(g, q), Index(g, p));
      RowTripletsShape(g, q);
      RowEntriesOfOneRow(RowTriplets(g, q), Index(g, q), Index(g, p));
      if Index(g, q) == Index(g, p) {
        FlattenInjective(|g.x|, q.i, q.j, p.i, p.j);
      }
      CountMembership(prefix, p);
    }
  }

  /** Every point the loops visit is a grid point. */
  lemma WriteOrderInGrid(g: Mesh)
    requires ValidMesh(g)
    ensures forall k :: 0 <= k < |WriteOrder(|g.x|, |g.y|)| ==> InGrid(g, WriteOrder(|g.x|, |g.y|)[k])
  {
    var w := WriteOrder(|g.x|, |g.y|);
    forall k | 0 <= k < |w| ensures InGrid(g, w[k]) {
      WriteOrderVisitsOnce(|g.x|, |g.y|, w[k]);
      CountMembership(w, w[k]);
    }
  }

  /** Row idx(p) of the triplet list holds exactly the triplets pushed for p. */
  lemma TripletsOfRow(g: Mesh, p: Point)
    requires ValidMesh(g) && InGrid(g, p)
    ensures RowEntries(Triplets(g), Index(g, p)) == RowTriplets(g, p)
  {
    var w := WriteOrder(|g.x|, |g.y|);
    WriteOrderVisitsOnce(|g.x|, |g.y|, p);
    CountMembership(w, p);
    WriteOrderInGrid(g);
    RowOfEmitAll(g, w, p);
  }

  /** Triplets pushed along grid points have row and column in [0, n). */
  lemma {:induction false} EmitAllInRange(g: Mesh, ps: seq<Point>)
    requires ValidMesh(g)
    requires forall k :: 0 <= k < |ps| ==> InGrid(g, ps[k])
    ensures forall k :: 0 <= k < |EmitAll(g, ps)| ==> EmitAll(g, ps)[k].row < Size(g) && EmitAll(g, ps)[k].col < Size(g)
  {
    if ps != [] {
      var prefix, q := ps[..|ps| - 1], ps[|ps| - 1];
      EmitAllInRange(g, prefix);
      RowTripletsShape(g, q);
      FlattenInRange(|g.x|, |g.y|, q.i, q.j);
      var e: seq<Triplet>, r: seq<Triplet> := EmitAll(g, prefix), RowTriplets(g, q);
      assert EmitAll(g, ps) == e + r;
      forall k: int | 0 <= k < |e + r| ensures (e + r)[k].row < Size(g) && (e + r)[k].col < Size(g) {
        if k >= |e| {
          assert (e + r)[k] == r[k - |e|];
        }
      }
    }
  }

  /** Every triplet has row and column in [0, n). */
  lemma TripletsInRange(g: Mesh)
    requires ValidMesh(g)
    ensures forall k :: 0 <= k < |Triplets(g)| ==> Triplets(g)[k].row < Size(g) && Triplets(g)[k].col < Size(g)
  {
    WriteOrderInGrid(g);
    EmitAllInRange(g, WriteOrder(|g.x|, |g.y|));
  }

  /** No (row, col) position is named by two triplets, so setFromTriplets sums nothing. */
  lemma TripletsDistinct(g: Mesh)
    requires ValidMesh(g)
    ensures DistinctPairs(Triplets(g))
  {
    forall r: nat ensures DistinctPairs(RowEntries(Triplets(g), r)) {
      RowDistinct(g, r);
    }
    DistinctPairsByRows(Triplets(g));
  }

  /** Within any one row of the triplet list, no column repeats. */
  lemma RowDistinct(g: Mesh, r: nat)
    requires ValidMesh(g)
    ensures DistinctPairs(RowEntries(Triplets(g), r))
  {
    UnflattenInRange(|g.x|, |g.y|, r);
    if r < Size(g) {
      TripletsOfRow(g, Point(r % |g.x|, r / |g.x|));
      RowTripletsShape(g, Point(r % |g.x|, r / |g.x|));
    } else {
      RowOutsideEmpty(g, r);
    }
  }

  /** Rows at or beyond n hold no triplet. */
  lemma RowOutsideEmpty(g: Mesh, r: nat)
    requires ValidMesh(g) && r >= Size(g)
    ensures RowEntries(Triplets(g), r) == []
  {
    TripletsInRange(g);
    RowEntriesNone(Triplets(g), r);
  }

  /** A[idx(p)][c] sums only the triplets pushed for p. */
  lemma MatrixRow(g: Mesh, p: Point, c: nat)
    requires ValidMesh(g) && InGrid(g, p)
    ensures Entry(AssembledMatrix(g), Index(g, p), c) == SumAt(RowTriplets(g, p), Index(g, p), c)
  {
    SumAtRowEntries(Triplets(g), Index(g, p), c);
    TripletsOfRow(g, p);
  }

  /** The row of a boundary point is the identity row: 1 on the diagonal, 0 elsewhere. */
  lemma BoundaryRow(g: Mesh, p: Point, c: nat)
    requires ValidMesh(g) && InGrid(g, p) && !IsInterior(g, p)
    ensures Entry(AssembledMatrix(g), Index(g, p), c) == if c == Index(g, p) then 1.0 else 0.0
  {
    MatrixRow(g, p, c);
    var t := RowTriplets(g, p);
    assert t[..|t| - 1] == [];
  }

  /**
    The row of an interior point holds the five stencil weights at the columns
    of the point and its four neighbours, and 0 at every other column.
   */
  lemma InteriorRow(g: Mesh, p: Point)
    requires ValidMesh(g) && IsInterior(g, p)
    ensures var A, s, r := AssembledMatrix(g), PointStencil(g, p.i, p.j), Index(g, p);
            && Entry(A, r, Index(g, Point(p.i, p.j - 1))) == s.south
            && Entry(A, r, Index(g, Point(p.i - 1, p.j))) == s.west
            && Entry(A, r, r) == s.centre
            && Entry(A, r, Index(g, Point(p.i + 1, p.j))) == s.east
            && Entry(A, r, Index(g, Point(p.i, p.j + 1))) == s.north
    ensures var A, r := AssembledMatrix(g), Index(g, p);
            forall c: nat :: c != Index(g, Point(p.i, p.j - 1)) && c != Index(g, Point(p.i - 1, p.j)) && c != r
                          && c != Index(g, Point(p.i + 1, p.j)) && c != Index(g, Point(p.i, p.j + 1))
                          ==> Entry(A, r, c) == 0.0
  {
    StencilColumns(g, p);
    StencilEntry(g, p, 0);
    StencilEntry(g, p, 1);
    StencilEntry(g, p, 2);
    StencilEntry(g, p, 3);
    StencilEntry(g, p, 4);
    forall c: nat | c != Index(g, Point(p.i, p.j - 1)) && c != Index(g, Point(p.i - 1, p.j)) && c != Index(g, p)
                 && c != Index(g, Point(p.i + 1, p.j)) && c != Index(g, Point(p.i, p.j + 1))
      ensures Entry(AssembledMatrix(g), Index(g, p), c) == 0.0
    {
      StencilGap(g, p, c);
    }
  }

  /** The columns and weights of the five triplets of an interior point, in push order. */
  lemma StencilColumns(g: Mesh, p: Point)
    requires ValidMesh(g) && IsInterior(g, p)
    ensures var ts, s, r := StencilRow(g, p.i, p.j), PointStencil(g, p.i, p.j), Index(g, p);
            && |ts| == 5
            && ts[0] == Triplet(r, Index(g, Point(p.i, p.j - 1)), s.south)
            && ts[1] == Triplet(r, Index(g, Point(p.i - 1, p.j)), s.west)
            && ts[2] == Triplet(r, r, s.centre)
            && ts[3] == Triplet(r, Index(g, Point(p.i + 1, p.j)), s.east)
            && ts[4] == Triplet(r, Index(g, Point(p.i, p.j + 1)), s.north)
  {
  }

  /** The k-th triplet of an interior point's stencil is the matrix entry at its column. */
  lemma StencilEntry(g: Mesh, p: Point, k: nat)
    requires ValidMesh(g) && IsInterior(g, p) && k < 5
    ensures k < |StencilRow(g, p.i, p.j)|
    ensures Entry(AssembledMatrix(g), Index(g, p), StencilRow(g, p.i, p.j)[k].col) == StencilRow(g, p.i, p.j)[k].value
  {
    var ts := StencilRow(g, p.i, p.j);
    StencilRowShape(g, p.i, p.j);
    MatrixRow(g, p, ts[k].col);
    SumAtDistinct(ts, Index(g, p), ts[k].col);
  }

  /** Off the five stencil columns, an interior row is zero. */
  lemma StencilGap(g: Mesh, p: Point, c: nat)
    requires ValidMesh(g) && IsInterior(g, p)
    requires c != Index(g, Point(p.i, p.j - 1)) && c != Index(g, Point(p.i - 1, p.j)) && c != Index(g, p)
          && c != Index(g, Point(p.i + 1, p.j)) && c != Index(g, Point(p.i, p.j + 1))
    ensures Entry(AssembledMatrix(g), Index(g, p), c) == 0.0
  {
    var ts := StencilRow(g, p.i, p.j);
    StencilColumns(g, p);
    MatrixRow(g, p, c);
    SumAtDistinct(ts, Index(g, p), c);
    StencilRowShape(g, p.i, p.j);
  }
  /** The diagonal of A is positive: 1 on boundary rows, the stencil centre on interior rows. */
  lemma DiagonalPositive(g: Mesh, k: nat)
    requires ValidMesh(g) && k < Size(g)
    ensures Entry(AssembledMatrix(g), k, k) > 0.0
  {
    var imax := |g.x|;
    UnflattenInRange(imax, |g.y|, k);
    var p := Point(k % imax, k / imax);
    if IsInterior(g, p) {
      InteriorRow(g, p);
    } else {
      BoundaryRow(g, p, k);
    }
  }

  /**
    An interior row is a discrete Laplacian row: its five entries sum to zero,
    the diagonal is positive and the four neighbour entries are negative.
   */
  lemma InteriorRowSum(g: Mesh, p: Point)
    requires ValidMesh(g) && IsInterior(g, p)
    ensures var A, r := AssembledMatrix(g), Index(g, p);
            var south, west, east, north := Index(g, Point(p.i, p.j - 1)), Index(g, Point(p.i - 1, p.j)),
                                            Index(g, Point(p.i + 1, p.j)), Index(g, Point(p.i, p.j + 1));
            && Entry(A, r, south) + Entry(A, r, west) + Entry(A, r, r) + Entry(A, r, east) + Entry(A, r, north) == 0.0
            && Entry(A, r, r) > 0.0
            && Entry(A, r, south) < 0.0 && Entry(A, r, west) < 0.0
            && Entry(A, r, east) < 0.0 && Entry(A, r, north) < 0.0
  {
    InteriorRow(g, p);
  }

  /** A is n-by-n: nothing is stored outside rows and columns 0 .. n-1. */
  lemma OutsideIsZero(g: Mesh, r: nat, c: nat)
    requires ValidMesh(g) && (r >= Size(g) || c >= Size(g))
    ensures Entry(AssembledMatrix(g), r, c) == 0.0
    ensures (r, c) !in AssembledMatrix(g)
  {
    TripletsInRange(g);
    TripletsDistinct(g);
    SumAtDistinct(Triplets(g), r, c);
  }

  // ---------------------------------------------------------------------------
  // The number of triplets

  lemma {:induction false} EmitAllInteriorLength(g: Mesh, ps: seq<Point>)
    requires ValidMesh(g)
    requires forall k :: 0 <= k < |ps| ==> IsInterior(g, ps[k])
    ensures |EmitAll(g, ps)| == 5 * |ps|
  {
    if ps != [] {
      EmitAllInteriorLength(g, ps[..|ps| - 1]);
    }
  }

  lemma {:induction false} IdentitiesLength(g: Mesh, ps: seq<Point>)
    ensures |Identities(g, ps)| == |ps|
  {
    if ps != [] {
      IdentitiesLength(g, ps[..|ps| - 1]);
    }
  }

  /** Along boundary points alone, one triplet per point. */
  lemma BoundaryEmitLength(g: Mesh, ps: seq<Point>)
    requires ValidMesh(g)
    requires forall k :: 0 <= k < |ps| ==> !IsInterior(g, ps[k])
    ensures |EmitAll(g, ps)| == |ps|
  {
    EmitAllBoundary(g, ps);
    IdentitiesLength(g, ps);
  }

  lemma InteriorPointsAreInterior(g: Mesh, ps: seq<Point>)
    requires ValidMesh(g) && ps == InteriorPoints(|g.x|, |g.y| - 1)
    ensures forall k :: 0 <= k < |ps| ==> IsInterior(g, ps[k])
  {
    forall k | 0 <= k < |ps| ensures IsInterior(g, ps[k]) {
      CountMembership(ps, ps[k]);
      CountInteriorPoints(|g.x|, |g.y| - 1, ps[k]);
    }
  }

  /** The South and North sweeps stay on rows 0 and jmax-1. */
  lemma RowPointsOnEdge(g: Mesh, j: nat, ps: seq<Point>)
    requires ValidMesh(g) && (j == 0 || j == |g.y| - 1) && ps == RowPoints(j, |g.x| - 1)
    ensures forall k :: 0 <= k < |ps| ==> !IsInterior(g, ps[k])
  {
    forall k | 0 <= k < |ps| ensures !IsInterior(g, ps[k]) {
      CountMembership(ps, ps[k]);
      CountRowPoints(j, |g.x| - 1, ps[k]);
    }
  }

  /** The West and East sweeps stay on columns 0 and imax-1. */
  lemma ColumnPointsOnEdge(g: Mesh, i: nat, ps: seq<Point>)
    requires ValidMesh(g) && (i == 0 || i == |g.x| - 1) && ps == ColumnPoints(i, |g.y|)
    ensures forall k :: 0 <= k < |ps| ==> !IsInterior(g, ps[k])
  {
    forall k | 0 <= k < |ps| ensures !IsInterior(g, ps[k]) {
      CountMembership(ps, ps[k]);
      CountColumnPoints(i, |g.y|, ps[k]);
    }
  }

  lemma EmitAllLengthAppend(g: Mesh, a: seq<Point>, b: seq<Point>)
    requires ValidMesh(g)
    ensures |EmitAll(g, a + b)| == |EmitAll(g, a)| + |EmitAll(g, b)|
  {
    EmitAllAppend(g, a, b);
  }

  lemma EmitAllFive(g: Mesh, a: seq<Point>, b: seq<Point>, c: seq<Point>, d: seq<Point>, e: seq<Point>)
    requires ValidMesh(g)
    ensures |EmitAll(g, a + b + c + d + e)|
         == |EmitAll(g, a)| + |EmitAll(g, b)| + |EmitAll(g, c)| + |EmitAll(g, d)| + |EmitAll(g, e)|
  {
    EmitAllLengthAppend(g, a + b + c + d, e);
    EmitAllLengthAppend(g, a + b + c, d);
    EmitAllLengthAppend(g, a + b, c);
    EmitAllLengthAppend(g, a, b);
  }

  lemma InteriorEmitLength(g: Mesh)
    requires ValidMesh(g)
    ensures |EmitAll(g, InteriorPoints(|g.x|, |g.y| - 1))| == 5 * ((|g.x| - 2) * (|g.y| - 2))
  {
    InteriorPointsAreInterior(g, InteriorPoints(|g.x|, |g.y| - 1));
    EmitAllInteriorLength(g, InteriorPoints(|g.x|, |g.y| - 1));
    LengthInteriorPoints(|g.x|, |g.y| - 1);
    assert (|g.y| - 1 - 1) * (|g.x| - 2) == (|g.x| - 2) * (|g.y| - 2);
  }

  lemma RowEmitLength(g: Mesh, j: nat)
    requires ValidMesh(g) && (j == 0 || j == |g.y| - 1)
    ensures |EmitAll(g, RowPoints(j, |g.x| - 1))| == |g.x| - 2
  {
    RowPointsOnEdge(g, j, RowPoints(j, |g.x| - 1));
    BoundaryEmitLength(g, RowPoints(j, |g.x| - 1));
    LengthRowPoints(j, |g.x| - 1);
  }

  lemma ColumnEmitLength(g: Mesh, i: nat)
    requires ValidMesh(g) && (i == 0 || i == |g.x| - 1)
    ensures |EmitAll(g, ColumnPoints(i, |g.y|))| == |g.y|
  {
    ColumnPointsOnEdge(g, i, ColumnPoints(i, |g.y|));
    BoundaryEmitLength(g, ColumnPoints(i, |g.y|));
    LengthColumnPoints(i, |g.y|);
  }

  /** The triplet list splits along the five sweeps. */
  lemma TripletsBySweep(g: Mesh)
    requires ValidMesh(g)
    ensures |Triplets(g)|
         == |EmitAll(g, InteriorPoints(|g.x|, |g.y| - 1))| + |EmitAll(g, RowPoints(0, |g.x| - 1))|
            + |EmitAll(g, RowPoints(|g.y| - 1, |g.x| - 1))| + |EmitAll(g, ColumnPoints(0, |g.y|))|
            + |EmitAll(g, ColumnPoints(|g.x| - 1, |g.y|))|
  {
    EmitAllFive(g, InteriorPoints(|g.x|, |g.y| - 1), RowPoints(0, |g.x| - 1), RowPoints(|g.y| - 1, |g.x| - 1),
                ColumnPoints(0, |g.y|), ColumnPoints(|g.x| - 1, |g.y|));
  }

  /** The four boundary sweeps push imax-2, imax-2, jmax and jmax triplets. */
  lemma EdgeSweepLengths(g: Mesh)
    requires ValidMesh(g)
    ensures |EmitAll(g, RowPoints(0, |g.x| - 1))| + |EmitAll(g, RowPoints(|g.y| - 1, |g.x| - 1))|
            + |EmitAll(g, ColumnPoints(0, |g.y|))| + |EmitAll(g, ColumnPoints(|g.x| - 1, |g.y|))|
         == 2 * (|g.x| - 2) + 2 * |g.y|
  {
    RowSweepLengths(g);
    ColumnSweepLengths(g);
  }

  lemma RowSweepLengths(g: Mesh)
    requires ValidMesh(g)
    ensures |EmitAll(g, RowPoints(0, |g.x| - 1))| + |EmitAll(g, RowPoints(|g.y| - 1, |g.x| - 1))| == 2 * (|g.x| - 2)
  {
    RowEmitLength(g, 0);
    RowEmitLength(g, |g.y| - 1);
  }

  lemma ColumnSweepLengths(g: Mesh)
    requires ValidMesh(g)
    ensures |EmitAll(g, ColumnPoints(0, |g.y|))| + |EmitAll(g, ColumnPoints(|g.x| - 1, |g.y|))| == 2 * |g.y|
  {
    ColumnEmitLength(g, 0);
    ColumnEmitLength(g, |g.x| - 1);
  }

  /**
    The loops push 5 triplets per interior point and one per boundary point:
    5(imax-2)(jmax-2) + 2(imax-2) + 2 jmax in all.
   */
  lemma TripletCount(g: Mesh)
    requires ValidMesh(g)
    ensures |Triplets(g)| == 5 * ((|g.x| - 2) * (|g.y| - 2)) + 2 * (|g.x| - 2) + 2 * |g.y|
  {
    TripletsBySweep(g);
    InteriorEmitLength(g);
    EdgeSweepLengths(g);
  }
}
