/**
  Assembly of the linear system A u = b of the finite-difference Poisson
  problem: one five-entry stencil row per interior grid point, one identity row
  per boundary point, the right-hand side b, and the boundary values seeded
  into the initial guess u.
 */
module Assembly {
  import opened GridIndex
  import opened StencilCoefficients
  import opened SparseSystem

  /** Grid coordinates x[0..imax-1] and y[0..jmax-1]. */
  datatype Mesh = Mesh(x: seq<real>, y: seq<real>)

  /** Dirichlet values along the four edges: North/South indexed by i, West/East by j. */
  datatype Boundaries = Boundaries(north: seq<real>, west: seq<real>, south: seq<real>, east: seq<real>)

  predicate Increasing(s: seq<real>)
  {
    forall p :: 0 <= p < |s| - 1 ==> s[p] < s[p + 1]
  }

  predicate ValidMesh(g: Mesh)
  {
    |g.x| >= 2 && |g.y| >= 2 && Increasing(g.x) && Increasing(g.y)
  }

  predicate ValidBoundaries(g: Mesh, bc: Boundaries)
  {
    |bc.north| == |g.x| && |bc.south| == |g.x| && |bc.west| == |g.y| && |bc.east| == |g.y|
  }

  /** n = imax * jmax, the number of unknowns, boundaries included. */
  function Size(g: Mesh): nat
  {
    |g.x| * |g.y|
  }

  predicate InGrid(g: Mesh, p: Point)
  {
    p.i < |g.x| && p.j < |g.y|
  }

  /** 1 <= i <= imax-2 and 1 <= j <= jmax-2. */
  predicate IsInterior(g: Mesh, p: Point)
  {
    1 <= p.i < |g.x| - 1 && 1 <= p.j < |g.y| - 1
  }

  /** The unknown number idx = j*imax + i of point p. */
  function Index(g: Mesh, p: Point): nat
  {
    Flatten(|g.x|, p.i, p.j)
  }

  /** The stencil weights at interior point (i, j), from the four one-sided spacings. */
  function PointStencil(g: Mesh, i: nat, j: nat): Stencil
    requires ValidMesh(g) && 1 <= i < |g.x| - 1 && 1 <= j < |g.y| - 1
  {
    assert g.x[i - 1] < g.x[i] < g.x[i + 1] && g.y[j - 1] < g.y[j] < g.y[j + 1];
    Coefficients(g.x[i] - g.x[i - 1], g.x[i + 1] - g.x[i], g.y[j] - g.y[j - 1], g.y[j + 1] - g.y[j])
  }

  /**
    The five triplets pushed for interior point (i, j), all in row idx = j*imax + i,
    at the columns of (i, j-1), (i-1, j), (i, j), (i+1, j), (i, j+1).
   */
  function StencilRow(g: Mesh, i: nat, j: nat): (ts: seq<Triplet>)
    requires ValidMesh(g) && 1 <= i < |g.x| - 1 && 1 <= j < |g.y| - 1
    ensures |ts| == 5 && forall k :: 0 <= k < |ts| ==> ts[k].row == Flatten(|g.x|, i, j)
    ensures ts[2].col == ts[2].row && ts[2].value > 0.0
    ensures ts[0].value + ts[1].value + ts[2].value + ts[3].value + ts[4].value == 0.0
  {
    var imax := |g.x|;
    var s := PointStencil(g, i, j);
    var idx := Flatten(imax, i, j);
    [Triplet(idx, Flatten(imax, i, j - 1), s.south),
     Triplet(idx, Flatten(imax, i - 1, j), s.west),
     Triplet(idx, idx, s.centre),
     Triplet(idx, Flatten(imax, i + 1, j), s.east),
     Triplet(idx, Flatten(imax, i, j + 1), s.north)]
  }

  /** The triplets pushed when point p is visited: a stencil row inside, an identity row on the boundary. */
  function RowTriplets(g: Mesh, p: Point): (ts: seq<Triplet>)
    requires ValidMesh(g)
    ensures |ts| == if IsInterior(g, p) then 5 else 1
    ensures forall k :: 0 <= k < |ts| ==> ts[k].row == Index(g, p)
    ensures !IsInterior(g, p) ==> ts == [Triplet(Index(g, p), Index(g, p), 1.0)]
  {
    if IsInterior(g, p) then StencilRow(g, p.i, p.j) else [Triplet(Index(g, p), Index(g, p), 1.0)]
  }

  /** The triplets pushed while visiting the points ps in order. */
  function EmitAll(g: Mesh, ps: seq<Point>): seq<Triplet>
    requires ValidMesh(g)
  {
    if ps == [] then [] else EmitAll(g, ps[..|ps| - 1]) + RowTriplets(g, ps[|ps| - 1])
  }

  /** One identity triplet (idx, idx, 1) per point of ps: what the boundary loops push. */
  function Identities(g: Mesh, ps: seq<Point>): seq<Triplet>
  {
    if ps == [] then []
    else Identities(g, ps[..|ps| - 1]) + [Triplet(Index(g, ps[|ps| - 1]), Index(g, ps[|ps| - 1]), 1.0)]
  }

  /** Order of visits: interior rows, then the boundary. */
  function WriteOrder(imax: nat, jmax: nat): seq<Point>
    requires imax >= 2 && jmax >= 2
  {
    InteriorPoints(imax, jmax - 1) + RowPoints(0, imax - 1) + RowPoints(jmax - 1, imax - 1)
    + ColumnPoints(0, jmax) + ColumnPoints(imax - 1, jmax)
  }

  /** Order of the boundary visits: South and North without corners, then West and East with them. */
  function BoundaryOrder(imax: nat, jmax: nat): seq<Point>
    requires imax >= 2 && jmax >= 2
  {
    RowPoints(0, imax - 1) + RowPoints(jmax - 1, imax - 1)
    + ColumnPoints(0, jmax) + ColumnPoints(imax - 1, jmax)
  }

  /** The full triplet list, in push order. */
  function Triplets(g: Mesh): seq<Triplet>
    requires ValidMesh(g)
  {
    EmitAll(g, WriteOrder(|g.x|, |g.y|))
  }

  /**
    The Dirichlet value of boundary point p, from the edge loop that visits it:
    the corners take the West/East values, since South and North skip them.
   */
  function BoundaryValue(g: Mesh, bc: Boundaries, p: Point): (v: real)
    requires ValidBoundaries(g, bc) && InGrid(g, p) && !IsInterior(g, p)
    ensures p.i == 0 ==> v == bc.west[p.j]
    ensures p.i == |g.x| - 1 && p.i != 0 ==> v == bc.east[p.j]
    ensures 1 <= p.i < |g.x| - 1 && p.j == 0 ==> v == bc.south[p.i]
    ensures 1 <= p.i < |g.x| - 1 && p.j == |g.y| - 1 && p.j != 0 ==> v == bc.north[p.i]
  {
    if p.i == 0 then bc.west[p.j]
    else if p.i == |g.x| - 1 then bc.east[p.j]
    else if p.j == 0 then bc.south[p.i]
    else bc.north[p.i]
  }

  /** b at point p: the source term inside, the boundary value on the boundary. */
  function Rhs(g: Mesh, bc: Boundaries, source: (real, real) -> real, p: Point): real
    requires ValidBoundaries(g, bc) && InGrid(g, p)
  {
    if IsInterior(g, p) then source(g.x[p.i], g.y[p.j]) else BoundaryValue(g, bc, p)
  }

  /**
    base with Rhs written, in order, at the index of every grid point of ps: the
    contents of b (or u) after the loops have visited ps.
   */
  ghost function Written(g: Mesh, bc: Boundaries, source: (real, real) -> real,
                         base: seq<real>, ps: seq<Point>): (s: seq<real>)
    requires ValidBoundaries(g, bc)
    ensures |s| == |base|
  {
    if ps == [] then base
    else
      var w, p := Written(g, bc, source, base, ps[..|ps| - 1]), ps[|ps| - 1];
      if InGrid(g, p) && Index(g, p) < |w| then w[Index(g, p) := Rhs(g, bc, source, p)] else w
  }

  /**
    The state the loops leave behind once they have pushed the triplets of doneB
    and written Rhs into b (from b0) along doneB and into u (from u0) along doneU.
   */
  ghost predicate Visited(g: Mesh, bc: Boundaries, source: (real, real) -> real, coefficients: seq<Triplet>,
                          bs: seq<real>, us: seq<real>, b0: seq<real>, u0: seq<real>,
                          doneB: seq<Point>, doneU: seq<Point>)
    requires ValidMesh(g) && ValidBoundaries(g, bc)
  {
    && coefficients == EmitAll(g, doneB)
    && bs == Written(g, bc, source, b0, doneB)
    && us == Written(g, bc, source, u0, doneU)
  }

  // ---------------------------------------------------------------------------
  // The assembly loops

  /**
    Fills the triplet list, b (zeroed first) and the boundary entries of u, in
    the loop order of the source: interior rows j = 1 .. jmax-2, i = 1 .. imax-2,
    then South (j = 0) and North (j = jmax-1) for i = 1 .. imax-2, then West
    (i = 0) and East (i = imax-1) for j = 0 .. jmax-1.
   */
  method Assemble(g: Mesh, bc: Boundaries, source: (real, real) -> real, u: array<real>)
    returns (coefficients: seq<Triplet>, b: array<real>)
    requires ValidMesh(g) && ValidBoundaries(g, bc)
    // idx is a u32 and each triplet stores it as an int, so n stays below 2^31
    requires |g.x| * |g.y| < 0x8000_0000
    requires u.Length == |g.x| * |g.y|
    modifies u
    ensures fresh(b) && b.Length == Size(g)
    ensures coefficients == Triplets(g)
    ensures forall p :: InGrid(g, p) ==> Index(g, p) < b.Length && b[Index(g, p)] == Rhs(g, bc, source, p)
    ensures forall p :: InGrid(g, p) ==>
              Index(g, p) < u.Length &&
              u[Index(g, p)] == if IsInterior(g, p) then old(u[Index(g, p)]) else BoundaryValue(g, bc, p)
  {
    var n := |g.x| * |g.y|;
    b := new real[n](_ => 0.0);
    ghost var zeros, u0 := b[..], u[..];
    coefficients := AssembleLoops(g, bc, source, b, u);
    forall p | InGrid(g, p)
      ensures Index(g, p) < b.Length && b[Index(g, p)] == Rhs(g, bc, source, p)
      ensures Index(g, p) < u.Length &&
              u[Index(g, p)] == if IsInterior(g, p) then old(u[Index(g, p)]) else BoundaryValue(g, bc, p)
    {
      AssembledValues(g, bc, source, zeros, u0, p);
    }
  }

  /** The five loops, in order: b and u receive Rhs along WriteOrder and BoundaryOrder respectively. */
  method AssembleLoops(g: Mesh, bc: Boundaries, source: (real, real) -> real, b: array<real>, u: array<real>)
    returns (coefficients: seq<Triplet>)
    requires ValidMesh(g) && ValidBoundaries(g, bc)
    requires b != u && b.Length == Size(g) && u.Length == Size(g)
    modifies b, u
    ensures coefficients == Triplets(g)
    ensures b[..] == Written(g, bc, source, old(b[..]), WriteOrder(|g.x|, |g.y|))
    ensures u[..] == Written(g, bc, source, old(u[..]), BoundaryOrder(|g.x|, |g.y|))
  {
    coefficients := AssembleInterior(g, bc, source, b);
    ghost var interior := InteriorPoints(|g.x|, |g.y| - 1);
    assert Visited(g, bc, source, coefficients, b[..], u[..], old(b[..]), old(u[..]), interior, []);
    coefficients := AssembleBoundary(g, bc, source, b, u, coefficients, old(b[..]), old(u[..]), interior, []);
    VisitedAll(g, bc, source, coefficients, b[..], u[..], old(b[..]), old(u[..]));
  }

  /** The four edge loops: South, North, West, East. */
  method AssembleBoundary(g: Mesh, bc: Boundaries, source: (real, real) -> real, b: array<real>, u: array<real>,
                          coefficients0: seq<Triplet>, ghost b0: seq<real>, ghost u0: seq<real>,
                          ghost doneB: seq<Point>, ghost doneU: seq<Point>)
    returns (coefficients: seq<Triplet>)
    requires ValidMesh(g) && ValidBoundaries(g, bc)
    requires b != u && b.Length == Size(g) && u.Length == Size(g)
    requires Visited(g, bc, source, coefficients0, b[..], u[..], b0, u0, doneB, doneU)
    modifies b, u
    ensures Visited(g, bc, source, coefficients, b[..], u[..], b0, u0,
                    doneB + RowPoints(0, |g.x| - 1) + RowPoints(|g.y| - 1, |g.x| - 1)
                          + ColumnPoints(0, |g.y|) + ColumnPoints(|g.x| - 1, |g.y|),
                    doneU + RowPoints(0, |g.x| - 1) + RowPoints(|g.y| - 1, |g.x| - 1)
                          + ColumnPoints(0, |g.y|) + ColumnPoints(|g.x| - 1, |g.y|))
  {
    EdgeValues(g, bc);
    coefficients := AssembleEdgeRow(g, bc, source, 0, bc.south, b, u, coefficients0, b0, u0, doneB, doneU);
    ghost var south := RowPoints(0, |g.x| - 1);
    coefficients := AssembleEdgeRow(g, bc, source, |g.y| - 1, bc.north, b, u, coefficients,
                                    b0, u0, doneB + south, doneU + south);
    ghost var north := RowPoints(|g.y| - 1, |g.x| - 1);
    coefficients := AssembleBoundaryColumns(g, bc, source, b, u, coefficients,
                                            b0, u0, doneB + south + north, doneU + south + north);
  }

  /** The West and East edge loops. */
  method AssembleBoundaryColumns(g: Mesh, bc: Boundaries, source: (real, real) -> real, b: array<real>, u: array<real>,
                                 coefficients0: seq<Triplet>, ghost b0: seq<real>, ghost u0: seq<real>,
                                 ghost doneB: seq<Point>, ghost doneU: seq<Point>)
    returns (coefficients: seq<Triplet>)
    requires ValidMesh(g) && ValidBoundaries(g, bc)
    requires b != u && b.Length == Size(g) && u.Length == Size(g)
    requires Visited(g, bc, source, coefficients0, b[..], u[..], b0, u0, doneB, doneU)
    modifies b, u
    ensures Visited(g, bc, source, coefficients, b[..], u[..], b0, u0,
                    doneB + ColumnPoints(0, |g.y|) + ColumnPoints(|g.x| - 1, |g.y|),
                    doneU + ColumnPoints(0, |g.y|) + ColumnPoints(|g.x| - 1, |g.y|))
  {
    EdgeValues(g, bc);
    coefficients := AssembleEdgeColumn(g, bc, source, 0, bc.west, b, u, coefficients0, b0, u0, doneB, doneU);
    ghost var west := ColumnPoints(0, |g.y|);
    coefficients := AssembleEdgeColumn(g, bc, source, |g.x| - 1, bc.east, b, u, coefficients,
                                       b0, u0, doneB + west, doneU + west);
  }

  /** The interior sweep: rows j = 1 .. jmax-2, each over i = 1 .. imax-2. */
  method AssembleInterior(g: Mesh, bc: Boundaries, source: (real, real) -> real, b: array<real>)
    returns (coefficients: seq<Triplet>)
    requires ValidMesh(g) && ValidBoundaries(g, bc) && b.Length == Size(g)
    modifies b
    ensures coefficients == EmitAll(g, InteriorPoints(|g.x|, |g.y| - 1))
    ensures b[..] == Written(g, bc, source, old(b[..]), InteriorPoints(|g.x|, |g.y| - 1))
  {
    var imax, jmax := |g.x|, |g.y|;
    coefficients := [];
    ghost var visited: seq<Point> := [];
    var j := 1;
    while j < jmax - 1
      invariant 1 <= j <= jmax - 1
      invariant visited == InteriorPoints(imax, j)
      invariant coefficients == EmitAll(g, visited)
      invariant b[..] == Written(g, bc, source, old(b[..]), visited)
    {
      ghost var row;
      coefficients, row := AssembleInteriorRow(g, bc, source, j, b, coefficients, old(b[..]), visited);
      InteriorPointsStep(imax, j);
      visited := visited + row;
      j := j + 1;
    }
  }

  /** One interior row j: the points i = 1 .. imax-2. */
  method AssembleInteriorRow(g: Mesh, bc: Boundaries, source: (real, real) -> real, j: nat, b: array<real>,
                             coefficients0: seq<Triplet>, ghost b0: seq<real>, ghost below: seq<Point>)
    returns (coefficients: seq<Triplet>, ghost visited: seq<Point>)
    requires ValidMesh(g) && ValidBoundaries(g, bc) && 1 <= j < |g.y| - 1 && b.Length == Size(g)
    requires coefficients0 == EmitAll(g, below) && b[..] == Written(g, bc, source, b0, below)
    modifies b
    ensures visited == RowPoints(j, |g.x| - 1)
    ensures coefficients == EmitAll(g, below + visited)
    ensures b[..] == Written(g, bc, source, b0, below + visited)
  {
    var imax := |g.x|;
    coefficients := coefficients0;
    visited := [];
    var i := 1;
    while i < imax - 1
      invariant 1 <= i <= imax - 1
      invariant visited == RowPoints(j, i)
      invariant coefficients == coefficients0 + EmitAll(g, visited)
      invariant b[..] == Written(g, bc, source, old(b[..]), visited)
    {
      coefficients := VisitInteriorPoint(g, bc, source, i, j, b, coefficients, coefficients0, old(b[..]), visited);
      RowPointsStep(j, i);
      visited := visited + [Point(i, j)];
      i := i + 1;
    }
    EmitAllAppend(g, below, visited);
    WrittenAppend(g, bc, source, b0, below, visited);
  }

  /**
    One visit of interior point p = (i, j): the five stencil triplets of row
    idx = j*imax + i, pushed South, West, centre, East, North, and b[idx] set to
    the source term at (x[i], y[j]). The ghost parameters describe what the
    enclosing row loop has done so far.
   */
  method VisitInteriorPoint(g: Mesh, bc: Boundaries, source: (real, real) -> real, i: nat, j: nat,
                            b: array<real>, coefficients0: seq<Triplet>,
                            ghost start: seq<Triplet>, ghost b0: seq<real>, ghost visited: seq<Point>)
    returns (coefficients: seq<Triplet>)
    requires ValidMesh(g) && ValidBoundaries(g, bc) && 1 <= i < |g.x| - 1 && 1 <= j < |g.y| - 1
    requires b.Length == Size(g)
    requires coefficients0 == start + EmitAll(g, visited) && b[..] == Written(g, bc, source, b0, visited)
    modifies b
    ensures coefficients == start + EmitAll(g, visited + [Point(i, j)])
    ensures b[..] == Written(g, bc, source, b0, visited + [Point(i, j)])
  {
    var imax, jmax := |g.x|, |g.y|;
    assert g.x[i - 1] < g.x[i] < g.x[i + 1] && g.y[j - 1] < g.y[j] < g.y[j + 1];
    var dx1 := g.x[i] - g.x[i - 1];
    var dx2 := g.x[i + 1] - g.x[i];
    var dy1 := g.y[j] - g.y[j - 1];
    var dy2 := g.y[j + 1] - g.y[j];
    var st := Coefficients(dx1, dx2, dy1, dy2);

    var idx: nat := j * imax + i;
    FlattenInRange(imax, jmax, i, j);
    var idx1: nat;
    coefficients := coefficients0;
    idx1 := (j - 1) * imax + i; coefficients := coefficients + [Triplet(idx, idx1, st.south)];
    idx1 := j * imax + (i - 1); coefficients := coefficients + [Triplet(idx, idx1, st.west)];
    idx1 := j * imax + i;       coefficients := coefficients + [Triplet(idx, idx1, st.centre)];
    idx1 := j * imax + (i + 1); coefficients := coefficients + [Triplet(idx, idx1, st.east)];
    idx1 := (j + 1) * imax + i; coefficients := coefficients + [Triplet(idx, idx1, st.north)];

    assert coefficients == coefficients0 + StencilRow(g, i, j);
    InteriorPointStep(g, bc, source, coefficients0, b[..], start, b0, visited, Point(i, j));
    b[idx] := source(g.x[i], g.y[j]);
  }

  /** The ghost side of VisitInteriorPoint: the stencil row and the source value at one interior point. */
  lemma InteriorPointStep(g: Mesh, bc: Boundaries, source: (real, real) -> real, coefficients0: seq<Triplet>,
                          bs: seq<real>, start: seq<Triplet>, b0: seq<real>, visited: seq<Point>, p: Point)
    requires ValidMesh(g) && ValidBoundaries(g, bc) && IsInterior(g, p) && Index(g, p) < |b0|
    requires coefficients0 == start + EmitAll(g, visited) && bs == Written(g, bc, source, b0, visited)
    ensures coefficients0 + StencilRow(g, p.i, p.j) == start + EmitAll(g, visited + [p])
    ensures bs[Index(g, p) := source(g.x[p.i], g.y[p.j])] == Written(g, bc, source, b0, visited + [p])
  {
    EmitAllSnoc(g, visited, p);
    WrittenSnoc(g, bc, source, b0, visited, p);
  }

  /**
    The South (j = 0) or North (j = jmax-1) edge, i = 1 .. imax-2, with vals[i] the
    value at (i, j). The ghost parameters say which points the earlier loops have
    written into b (from b0) and into u (from u0).
   */
  method AssembleEdgeRow(g: Mesh, bc: Boundaries, source: (real, real) -> real, j: nat, vals: seq<real>,
                         b: array<real>, u: array<real>, coefficients0: seq<Triplet>,
                         ghost b0: seq<real>, ghost u0: seq<real>, ghost doneB: seq<Point>, ghost doneU: seq<Point>)
    returns (coefficients: seq<Triplet>)
    requires ValidMesh(g) && ValidBoundaries(g, bc)
    requires (j == 0 || j == |g.y| - 1) && |vals| == |g.x|
    requires forall i :: 1 <= i < |g.x| - 1 ==> vals[i] == BoundaryValue(g, bc, Point(i, j))
    requires b != u && b.Length == Size(g) && u.Length == Size(g)
    requires Visited(g, bc, source, coefficients0, b[..], u[..], b0, u0, doneB, doneU)
    modifies b, u
    ensures Visited(g, bc, source, coefficients, b[..], u[..], b0, u0,
                    doneB + RowPoints(j, |g.x| - 1), doneU + RowPoints(j, |g.x| - 1))
  {
    var imax := |g.x|;
    coefficients := coefficients0;
    ghost var visited: seq<Point> := [];
    var i := 1;
    while i < imax - 1
      invariant 1 <= i <= imax - 1
      invariant visited == RowPoints(j, i)
      invariant EdgeSwept(g, bc, source, coefficients, b[..], u[..], coefficients0, old(b[..]), old(u[..]), visited)
    {
      coefficients := VisitBoundaryPoint(g, bc, source, i, j, vals[i], b, u, coefficients,
                                         coefficients0, old(b[..]), old(u[..]), visited);
      RowPointsStep(j, i);
      visited := visited + [Point(i, j)];
      i := i + 1;
    }
    EdgeFinished(g, bc, source, coefficients0, old(b[..]), old(u[..]), b0, u0, doneB, doneU,
                 coefficients, b[..], u[..], RowPoints(j, |g.x| - 1));
  }

  /**
    The West (i = 0) or East (i = imax-1) edge, j = 0 .. jmax-1, corners included,
    with vals[j] the value at (i, j). The ghost parameters say which points the
    earlier loops have written into b (from b0) and into u (from u0).
   */
  method AssembleEdgeColumn(g: Mesh, bc: Boundaries, source: (real, real) -> real, i: nat, vals: seq<real>,
                            b: array<real>, u: array<real>, coefficients0: seq<Triplet>,
                            ghost b0: seq<real>, ghost u0: seq<real>, ghost doneB: seq<Point>, ghost doneU: seq<Point>)
    returns (coefficients: seq<Triplet>)
    requires ValidMesh(g) && ValidBoundaries(g, bc)
    requires (i == 0 || i == |g.x| - 1) && |vals| == |g.y|
    requires forall j :: 0 <= j < |g.y| ==> vals[j] == BoundaryValue(g, bc, Point(i, j))
    requires b != u && b.Length == Size(g) && u.Length == Size(g)
    requires Visited(g, bc, source, coefficients0, b[..], u[..], b0, u0, doneB, doneU)
    modifies b, u
    ensures Visited(g, bc, source, coefficients, b[..], u[..], b0, u0,
                    doneB + ColumnPoints(i, |g.y|), doneU + ColumnPoints(i, |g.y|))
  {
    var jmax := |g.y|;
    coefficients := coefficients0;
    ghost var visited: seq<Point> := [];
    var j := 0;
    while j < jmax
      invariant 0 <= j <= jmax
      invariant visited == ColumnPoints(i, j)
      invariant EdgeSwept(g, bc, source, coefficients, b[..], u[..], coefficients0, old(b[..]), old(u[..]), visited)
    {
      coefficients := VisitBoundaryPoint(g, bc, source, i, j, vals[j], b, u, coefficients,
                                         coefficients0, old(b[..]), old(u[..]), visited);
      ColumnPointsStep(i, j);
      visited := visited + [Point(i, j)];
      j := j + 1;
    }
    EdgeFinished(g, bc, source, coefficients0, old(b[..]), old(u[..]), b0, u0, doneB, doneU,
                 coefficients, b[..], u[..], ColumnPoints(i, |g.y|));
  }

  /**
    The state an edge loop keeps: it has pushed one identity triplet (after start)
    and written Rhs into b (from b1) and u (from u1) for each point of visited,
    none of which is interior.
   */
  ghost predicate EdgeSwept(g: Mesh, bc: Boundaries, source: (real, real) -> real, coefficients: seq<Triplet>,
                            bs: seq<real>, us: seq<real>, start: seq<Triplet>, b1: seq<real>, u1: seq<real>,
                            visited: seq<Point>)
    requires ValidBoundaries(g, bc)
  {
    && coefficients == start + Identities(g, visited)
    && bs == Written(g, bc, source, b1, visited) && us == Written(g, bc, source, u1, visited)
    && forall k :: 0 <= k < |visited| ==> !IsInterior(g, visited[k])
  }

  /** An edge loop that sets out from Visited and has swept visited has reached Visited with visited appended. */
  lemma EdgeFinished(g: Mesh, bc: Boundaries, source: (real, real) -> real, coefficients0: seq<Triplet>,
                     b1: seq<real>, u1: seq<real>, b0: seq<real>, u0: seq<real>, doneB: seq<Point>, doneU: seq<Point>,
                     coefficients: seq<Triplet>, bs: seq<real>, us: seq<real>, visited: seq<Point>)
    requires ValidMesh(g) && ValidBoundaries(g, bc)
    requires Visited(g, bc, source, coefficients0, b1, u1, b0, u0, doneB, doneU)
    requires EdgeSwept(g, bc, source, coefficients, bs, us, coefficients0, b1, u1, visited)
    ensures Visited(g, bc, source, coefficients, bs, us, b0, u0, doneB + visited, doneU + visited)
  {
    EmitAllBoundary(g, visited);
    EmitAllAppend(g, doneB, visited);
    WrittenAppend(g, bc, source, b0, doneB, visited);
    WrittenAppend(g, bc, source, u0, doneU, visited);
  }

  /**
    One visit of boundary point p = (i, j): an identity triplet in row
    idx = j*imax + i, and the Dirichlet value written both to b[idx] and to u[idx].
    The ghost parameters describe what the enclosing edge loop has done so far.
   */
  method VisitBoundaryPoint(g: Mesh, bc: Boundaries, source: (real, real) -> real, i: nat, j: nat, value: real,
                            b: array<real>, u: array<real>, coefficients0: seq<Triplet>,
                            ghost start: seq<Triplet>, ghost b0: seq<real>, ghost u0: seq<real>,
                            ghost visited: seq<Point>)
    returns (coefficients: seq<Triplet>)
    requires ValidBoundaries(g, bc) && i < |g.x| && j < |g.y| && !IsInterior(g, Point(i, j))
    requires value == BoundaryValue(g, bc, Point(i, j))
    requires b != u && b.Length == Size(g) && u.Length == Size(g)
    requires EdgeSwept(g, bc, source, coefficients0, b[..], u[..], start, b0, u0, visited)
    modifies b, u
    ensures EdgeSwept(g, bc, source, coefficients, b[..], u[..], start, b0, u0, visited + [Point(i, j)])
  {
    var imax := |g.x|;
    var idx: nat := j * imax + i;
    FlattenInRange(imax, |g.y|, i, j);
    BoundaryPointStep(g, bc, source, coefficients0, b[..], u[..], start, b0, u0, visited, Point(i, j));
    coefficients := coefficients0 + [Triplet(idx, idx, 1.0)];
    b[idx] := value;
    u[idx] := value;
  }

  /** The ghost side of VisitBoundaryPoint: one identity triplet and one boundary value in b and u. */
  lemma BoundaryPointStep(g: Mesh, bc: Boundaries, source: (real, real) -> real, coefficients0: seq<Triplet>,
                          bs: seq<real>, us: seq<real>, start: seq<Triplet>, b0: seq<real>, u0: seq<real>,
                          visited: seq<Point>, p: Point)
    requires ValidBoundaries(g, bc) && InGrid(g, p) && !IsInterior(g, p)
    requires Index(g, p) < |b0| && Index(g, p) < |u0|
    requires EdgeSwept(g, bc, source, coefficients0, bs, us, start, b0, u0, visited)
    ensures EdgeSwept(g, bc, source, coefficients0 + [Triplet(Index(g, p), Index(g, p), 1.0)],
                      bs[Index(g, p) := BoundaryValue(g, bc, p)], us[Index(g, p) := BoundaryValue(g, bc, p)],
                      start, b0, u0, visited + [p])
  {
    IdentitiesSnoc(g, visited, p);
    WrittenSnoc(g, bc, source, b0, visited, p);
    WrittenSnoc(g, bc, source, u0, visited, p);
    assert (visited + [p])[|visited|] == p;
  }

  // ---------------------------------------------------------------------------
  // Facts about the visit order

  lemma IdentitiesSnoc(g: Mesh, ps: seq<Point>, p: Point)
    ensures Identities(g, ps + [p]) == Identities(g, ps) + [Triplet(Index(g, p), Index(g, p), 1.0)]
  {
    assert (ps + [p])[..|ps|] == ps;
  }

  /** Along points none of which is interior, the pushed triplets are identity rows only. */
  lemma {:induction false} EmitAllBoundary(g: Mesh, ps: seq<Point>)
    requires ValidMesh(g)
    requires forall k :: 0 <= k < |ps| ==> !IsInterior(g, ps[k])
    ensures EmitAll(g, ps) == Identities(g, ps)
  {
    if ps != [] {
      EmitAllBoundary(g, ps[..|ps| - 1]);
    }
  }

  /** The five loops, one after the other, visit the points of WriteOrder. */
  lemma WriteOrderPieces(imax: nat, jmax: nat)
    requires imax >= 2 && jmax >= 2
    ensures WriteOrder(imax, jmax)
         == InteriorPoints(imax, jmax - 1) + RowPoints(0, imax - 1) + RowPoints(jmax - 1, imax - 1)
            + ColumnPoints(0, jmax) + ColumnPoints(imax - 1, jmax)
    ensures BoundaryOrder(imax, jmax)
         == [] + RowPoints(0, imax - 1) + RowPoints(jmax - 1, imax - 1)
            + ColumnPoints(0, jmax) + ColumnPoints(imax - 1, jmax)
  {
    assert [] + RowPoints(0, imax - 1) == RowPoints(0, imax - 1);
  }

  /** Once the interior and the four edges are swept, the loops have visited WriteOrder and BoundaryOrder. */
  lemma VisitedAll(g: Mesh, bc: Boundaries, source: (real, real) -> real, coefficients: seq<Triplet>,
                   bs: seq<real>, us: seq<real>, b0: seq<real>, u0: seq<real>)
    requires ValidMesh(g) && ValidBoundaries(g, bc)
    requires Visited(g, bc, source, coefficients, bs, us, b0, u0,
                     InteriorPoints(|g.x|, |g.y| - 1) + RowPoints(0, |g.x| - 1) + RowPoints(|g.y| - 1, |g.x| - 1)
                     + ColumnPoints(0, |g.y|) + ColumnPoints(|g.x| - 1, |g.y|),
                     [] + RowPoints(0, |g.x| - 1) + RowPoints(|g.y| - 1, |g.x| - 1)
                        + ColumnPoints(0, |g.y|) + ColumnPoints(|g.x| - 1, |g.y|))
    ensures coefficients == Triplets(g)
    ensures bs == Written(g, bc, source, b0, WriteOrder(|g.x|, |g.y|))
    ensures us == Written(g, bc, source, u0, BoundaryOrder(|g.x|, |g.y|))
  {
    CoefficientsInWriteOrder(g, coefficients);
    WrittenInWriteOrder(g, bc, source, bs, b0);
    WrittenInBoundaryOrder(g, bc, source, us, u0);
  }

  lemma CoefficientsInWriteOrder(g: Mesh, coefficients: seq<Triplet>)
    requires ValidMesh(g)
    requires coefficients == EmitAll(g, InteriorPoints(|g.x|, |g.y| - 1)
                                        + RowPoints(0, |g.x| - 1) + RowPoints(|g.y| - 1, |g.x| - 1)
                                        + ColumnPoints(0, |g.y|) + ColumnPoints(|g.x| - 1, |g.y|))
    ensures coefficients == Triplets(g)
  {
  }

  lemma WrittenInWriteOrder(g: Mesh, bc: Boundaries, source: (real, real) -> real, bs: seq<real>, b0: seq<real>)
    requires ValidMesh(g) && ValidBoundaries(g, bc)
    requires bs == Written(g, bc, source, b0, InteriorPoints(|g.x|, |g.y| - 1)
                                              + RowPoints(0, |g.x| - 1) + RowPoints(|g.y| - 1, |g.x| - 1)
                                              + ColumnPoints(0, |g.y|) + ColumnPoints(|g.x| - 1, |g.y|))
    ensures bs == Written(g, bc, source, b0, WriteOrder(|g.x|, |g.y|))
  {
  }

  lemma WrittenInBoundaryOrder(g: Mesh, bc: Boundaries, source: (real, real) -> real, us: seq<real>, u0: seq<real>)
    requires ValidMesh(g) && ValidBoundaries(g, bc)
    requires us == Written(g, bc, source, u0, [] + RowPoints(0, |g.x| - 1) + RowPoints(|g.y| - 1, |g.x| - 1)
                                              + ColumnPoints(0, |g.y|) + ColumnPoints(|g.x| - 1, |g.y|))
    ensures us == Written(g, bc, source, u0, BoundaryOrder(|g.x|, |g.y|))
  {
    assert [] + RowPoints(0, |g.x| - 1) == RowPoints(0, |g.x| - 1);
  }

  /** The edge arrays hold the Dirichlet value of each point of their edge. */
  lemma EdgeValues(g: Mesh, bc: Boundaries)
    requires ValidMesh(g) && ValidBoundaries(g, bc)
    ensures forall i :: 1 <= i < |g.x| - 1 ==> bc.south[i] == BoundaryValue(g, bc, Point(i, 0))
    ensures forall i :: 1 <= i < |g.x| - 1 ==> bc.north[i] == BoundaryValue(g, bc, Point(i, |g.y| - 1))
    ensures forall j :: 0 <= j < |g.y| ==> bc.west[j] == BoundaryValue(g, bc, Point(0, j))
    ensures forall j :: 0 <= j < |g.y| ==> bc.east[j] == BoundaryValue(g, bc, Point(|g.x| - 1, j))
  {
  }

  /** Visiting ps and then qs pushes the triplets of ps, then those of qs. */
  lemma {:induction false} EmitAllAppend(g: Mesh, ps: seq<Point>, qs: seq<Point>)
    requires ValidMesh(g)
    ensures EmitAll(g, ps + qs) == EmitAll(g, ps) + EmitAll(g, qs)
  {
    if qs == [] {
      assert ps + qs == ps;
    } else {
      assert (ps + qs)[..|ps + qs| - 1] == ps + qs[..|qs| - 1];
      EmitAllAppend(g, ps, qs[..|qs| - 1]);
    }
  }

  /** Writing along ps and then along qs is writing along ps + qs. */
  lemma {:induction false} WrittenAppend(g: Mesh, bc: Boundaries, source: (real, real) -> real,
                                         base: seq<real>, ps: seq<Point>, qs: seq<Point>)
    requires ValidBoundaries(g, bc)
    ensures Written(g, bc, source, base, ps + qs) == Written(g, bc, source, Written(g, bc, source, base, ps), qs)
  {
    if qs == [] {
      assert ps + qs == ps;
    } else {
      var front := qs[..|qs| - 1];
      WrittenAppend(g, bc, source, base, ps, front);
      assert (ps + qs)[..|ps + qs| - 1] == ps + front;
    }
  }

  /** Visiting one more point pushes that point's triplets. */
  lemma EmitAllSnoc(g: Mesh, ps: seq<Point>, p: Point)
    requires ValidMesh(g)
    ensures EmitAll(g, ps + [p]) == EmitAll(g, ps) + RowTriplets(g, p)
  {
    assert (ps + [p])[..|ps|] == ps;
  }

  lemma WrittenSnoc(g: Mesh, bc: Boundaries, source: (real, real) -> real, base: seq<real>, ps: seq<Point>, p: Point)
    requires ValidBoundaries(g, bc) && InGrid(g, p) && Index(g, p) < |base|
    ensures Written(g, bc, source, base, ps + [p])
         == Written(g, bc, source, base, ps)[Index(g, p) := Rhs(g, bc, source, p)]
  {
    assert (ps + [p])[..|ps|] == ps;
  }

  /** After visiting ps, the entry of grid point q holds Rhs if q was visited and is untouched otherwise. */
  lemma {:induction false} WrittenAt(g: Mesh, bc: Boundaries, source: (real, real) -> real,
                                     base: seq<real>, ps: seq<Point>, q: Point)
    requires ValidBoundaries(g, bc) && InGrid(g, q) && Index(g, q) < |base|
    ensures Written(g, bc, source, base, ps)[Index(g, q)]
         == if q in ps then Rhs(g, bc, source, q) else base[Index(g, q)]
  {
    if ps != [] {
      var prefix, p := ps[..|ps| - 1], ps[|ps| - 1];
      WrittenAt(g, bc, source, base, prefix, q);
      assert ps == prefix + [p];
      if InGrid(g, p) && p != q && Index(g, p) == Index(g, q) {
        FlattenInjective(|g.x|, p.i, p.j, q.i, q.j);
      }
    }
  }

  /**
    Every grid point is visited exactly once: the interior sweep and the four edge
    loops partition the grid.
   */
  lemma WriteOrderVisitsOnce(imax: nat, jmax: nat, p: Point)
    requires imax >= 2 && jmax >= 2
    ensures Count(WriteOrder(imax, jmax), p) == if p.i < imax && p.j < jmax then 1 else 0
  {
    CountSplit(InteriorPoints(imax, jmax - 1), RowPoints(0, imax - 1), RowPoints(jmax - 1, imax - 1),
               ColumnPoints(0, jmax), ColumnPoints(imax - 1, jmax), p);
    CountInteriorPoints(imax, jmax - 1, p);
    BoundaryVisitsOnce(imax, jmax, p);
  }

  lemma CountSplit(a: seq<Point>, b: seq<Point>, c: seq<Point>, d: seq<Point>, e: seq<Point>, p: Point)
    ensures Count(a + b + c + d + e, p) == Count(a, p) + Count(b + c + d + e, p)
  {
    CountAppend(a + b + c + d, e, p);
    CountAppend(a + b + c, d, p);
    CountAppend(a + b, c, p);
    CountAppend(a, b, p);
    CountAppend(b + c + d, e, p);
    CountAppend(b + c, d, p);
    CountAppend(b, c, p);
  }

  /**
    The edge loops visit every boundary point once and no interior point:
    South and North skip the corners, which West and East take.
   */
  lemma BoundaryVisitsOnce(imax: nat, jmax: nat, p: Point)
    requires imax >= 2 && jmax >= 2
    ensures Count(BoundaryOrder(imax, jmax), p)
         == if p.i < imax && p.j < jmax && !(1 <= p.i < imax - 1 && 1 <= p.j < jmax - 1) then 1 else 0
  {
    var south, north := RowPoints(0, imax - 1), RowPoints(jmax - 1, imax - 1);
    var west, east := ColumnPoints(0, jmax), ColumnPoints(imax - 1, jmax);
    CountAppend(south + north + west, east, p);
    CountAppend(south + north, west, p);
    CountAppend(south, north, p);
    CountRowPoints(0, imax - 1, p);
    CountRowPoints(jmax - 1, imax - 1, p);
    CountColumnPoints(0, jmax, p);
    CountColumnPoints(imax - 1, jmax, p);
  }

  /** The five loops visit exactly n = imax*jmax points. */
  lemma WriteOrderLength(imax: nat, jmax: nat)
    requires imax >= 2 && jmax >= 2
    ensures |WriteOrder(imax, jmax)| == imax * jmax
  {
    var a, b := imax - 2, jmax - 2;
    LengthInteriorPoints(imax, jmax - 1);
    LengthRowPoints(0, imax - 1);
    LengthRowPoints(jmax - 1, imax - 1);
    LengthColumnPoints(0, jmax);
    LengthColumnPoints(imax - 1, jmax);
    assert |WriteOrder(imax, jmax)| == b * a + a + a + jmax + jmax;
    ProductExpansion(a, b);
  }

  lemma ProductExpansion(a: nat, b: nat)
    ensures b * a + 2 * a + 2 * (b + 2) == (a + 2) * (b + 2)
  {
    calc {
      (a + 2) * (b + 2);
      a * (b + 2) + 2 * (b + 2);
      a * b + 2 * a + 2 * (b + 2);
    }
  }

  /** After all five loops, b holds Rhs at every point and u the boundary values on the boundary. */
  lemma AssembledValues(g: Mesh, bc: Boundaries, source: (real, real) -> real,
                        zeros: seq<real>, u0: seq<real>, p: Point)
    requires ValidMesh(g) && ValidBoundaries(g, bc) && |zeros| == Size(g) && |u0| == Size(g) && InGrid(g, p)
    ensures Index(g, p) < Size(g)
    ensures Written(g, bc, source, zeros, WriteOrder(|g.x|, |g.y|))[Index(g, p)] == Rhs(g, bc, source, p)
    ensures Written(g, bc, source, u0, BoundaryOrder(|g.x|, |g.y|))[Index(g, p)]
         == if IsInterior(g, p) then u0[Index(g, p)] else BoundaryValue(g, bc, p)
  {
    var imax, jmax := |g.x|, |g.y|;
    FlattenInRange(imax, jmax, p.i, p.j);
    WriteOrderVisitsOnce(imax, jmax, p);
    BoundaryVisitsOnce(imax, jmax, p);
    CountMembership(WriteOrder(imax, jmax), p);
    CountMembership(BoundaryOrder(imax, jmax), p);
    WrittenAt(g, bc, source, zeros, WriteOrder(imax, jmax), p);
    WrittenAt(g, bc, source, u0, BoundaryOrder(imax, jmax), p);
  }
}
