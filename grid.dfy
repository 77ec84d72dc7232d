/**
  The 2D-to-1D index map of the structured grid: point (i, j) of an
  imax-by-jmax grid is unknown number j*imax + i. Also the sequences of points
  that the assembly loops visit, and how often each point occurs in them.
 */
module GridIndex {

  /** Grid point (i, j): column i along x, row j along y. */
  datatype Point = Point(i: nat, j: nat)

  /**
    Flattened index of grid point (i, j), row by row: the points of row j take
    the block of indices j*imax .. (j+1)*imax - 1, in order of i.
   */
  function Flatten(imax: nat, i: nat, j: nat): (idx: nat)
    ensures i < imax ==> j * imax <= idx < (j + 1) * imax
    ensures idx - j * imax == i
  {
    assert (j + 1) * imax == j * imax + imax;
    j * imax + i
  }

  /** (idx % imax, idx / imax) gives the point back. */
  lemma DivModOfFlatten(imax: nat, i: nat, j: nat)
    requires i < imax
    ensures Flatten(imax, i, j) % imax == i && Flatten(imax, i, j) / imax == j
  {
    var k := j * imax + i;
    var q, m := k / imax, k % imax;
    assert k == q * imax + m && 0 <= m < imax;
    var d := q - j;
    assert d * imax == i - m by {
      assert q * imax - j * imax == (q - j) * imax;
    }
    if d >= 1 {
      MulAtLeast(d, imax);
    } else if d <= -1 {
      MulAtLeast(-d, imax);
    }
  }

  lemma MulAtLeast(d: int, m: nat)
    requires d >= 1
    ensures d * m >= m
  {
    assert d * m == (d - 1) * m + m;
    assert (d - 1) * m >= 0;
  }

  /** Every point of the grid lands in [0, imax*jmax). */
  lemma FlattenInRange(imax: nat, jmax: nat, i: nat, j: nat)
    requires i < imax && j < jmax
    ensures Flatten(imax, i, j) < imax * jmax
  {
    assert j * imax + i < (j + 1) * imax;
    assert (j + 1) * imax <= jmax * imax;
  }

  /** Two points with the same flattened index are the same point. */
  lemma FlattenInjective(imax: nat, i: nat, j: nat, i': nat, j': nat)
    requires i < imax && i' < imax
    requires Flatten(imax, i, j) == Flatten(imax, i', j')
    ensures i == i' && j == j'
  {
    DivModOfFlatten(imax, i, j);
    DivModOfFlatten(imax, i', j');
  }

  /** Every index of [0, imax*jmax) is the flattened index of exactly the point it decodes to. */
  lemma UnflattenInRange(imax: nat, jmax: nat, k: nat)
    requires imax > 0
    ensures Flatten(imax, k % imax, k / imax) == k
    ensures k < imax * jmax <==> k / imax < jmax
  {
    var q, m := k / imax, k % imax;
    assert k == q * imax + m;
    if q < jmax {
      FlattenInRange(imax, jmax, m, q);
    } else {
      assert q * imax >= jmax * imax;
    }
  }

  /** Points (1, j) .. (iEnd-1, j), in the order an `i = 1 .. iEnd-1` loop visits them. */
  function RowPoints(j: nat, iEnd: nat): seq<Point>
  {
    if iEnd <= 1 then [] else RowPoints(j, iEnd - 1) + [Point(iEnd - 1, j)]
  }

  /** Points (i, 0) .. (i, jEnd-1), in the order a `j = 0 .. jEnd-1` loop visits them. */
  function ColumnPoints(i: nat, jEnd: nat): seq<Point>
  {
    if jEnd == 0 then [] else ColumnPoints(i, jEnd - 1) + [Point(i, jEnd - 1)]
  }

  /** The interior rows 1 .. jEnd-1, each swept over i = 1 .. imax-2. */
  function InteriorPoints(imax: nat, jEnd: nat): seq<Point>
    requires imax >= 1
  {
    if jEnd <= 1 then [] else InteriorPoints(imax, jEnd - 1) + RowPoints(jEnd - 1, imax - 1)
  }

  /** One more step of an `i` loop appends (i, j). */
  lemma RowPointsStep(j: nat, i: nat)
    requires i >= 1
    ensures RowPoints(j, i + 1) == RowPoints(j, i) + [Point(i, j)]
  {
  }

  /** One more step of a `j` loop appends (i, j). */
  lemma ColumnPointsStep(i: nat, j: nat)
    ensures ColumnPoints(i, j + 1) == ColumnPoints(i, j) + [Point(i, j)]
  {
  }

  /** Sweeping one more interior row appends that row. */
  lemma InteriorPointsStep(imax: nat, j: nat)
    requires imax >= 1 && j >= 1
    ensures InteriorPoints(imax, j + 1) == InteriorPoints(imax, j) + RowPoints(j, imax - 1)
  {
  }

  /** Number of occurrences of p in s. */
  function Count(s: seq<Point>, p: Point): nat
  {
    if s == [] then 0 else Count(s[..|s| - 1], p) + (if s[|s| - 1] == p then 1 else 0)
  }

  lemma {:induction false} CountAppend(s: seq<Point>, t: seq<Point>, p: Point)
    ensures Count(s + t, p) == Count(s, p) + Count(t, p)
  {
    if t != [] {
      assert (s + t)[..|s + t| - 1] == s + t[..|t| - 1];
      CountAppend(s, t[..|t| - 1], p);
    } else {
      assert s + t == s;
    }
  }

  /** p occurs in s exactly when it is counted there. */
  lemma {:induction false} CountMembership(s: seq<Point>, p: Point)
    ensures p in s <==> Count(s, p) > 0
  {
    if s != [] {
      CountMembership(s[..|s| - 1], p);
      assert s == s[..|s| - 1] + [s[|s| - 1]];
    }
  }

  /** Row j0 is visited once at each column 1 .. iEnd-1 and nowhere else. */
  lemma {:induction false} CountRowPoints(j0: nat, iEnd: nat, p: Point)
    ensures Count(RowPoints(j0, iEnd), p) == if p.j == j0 && 1 <= p.i < iEnd then 1 else 0
  {
    if iEnd > 1 {
      CountRowPoints(j0, iEnd - 1, p);
      var s := RowPoints(j0, iEnd);
      assert s[..|s| - 1] == RowPoints(j0, iEnd - 1);
    }
  }

  /** Column i0 is visited once at each row 0 .. jEnd-1 and nowhere else. */
  lemma {:induction false} CountColumnPoints(i0: nat, jEnd: nat, p: Point)
    ensures Count(ColumnPoints(i0, jEnd), p) == if p.i == i0 && p.j < jEnd then 1 else 0
  {
    if jEnd > 0 {
      CountColumnPoints(i0, jEnd - 1, p);
      var s := ColumnPoints(i0, jEnd);
      assert s[..|s| - 1] == ColumnPoints(i0, jEnd - 1);
    }
  }

  /** The interior sweep visits each point with 1 <= i <= imax-2, 1 <= j < jEnd exactly once. */
  lemma {:induction false} CountInteriorPoints(imax: nat, jEnd: nat, p: Point)
    requires imax >= 1
    ensures Count(InteriorPoints(imax, jEnd), p) == if 1 <= p.j < jEnd && 1 <= p.i < imax - 1 then 1 else 0
  {
    if jEnd > 1 {
      CountInteriorPoints(imax, jEnd - 1, p);
      CountRowPoints(jEnd - 1, imax - 1, p);
      CountAppend(InteriorPoints(imax, jEnd - 1), RowPoints(jEnd - 1, imax - 1), p);
    }
  }

  lemma {:induction false} LengthRowPoints(j: nat, iEnd: nat)
    requires iEnd > 0
    ensures |RowPoints(j, iEnd)| == iEnd - 1
  {
    if iEnd > 1 {
      LengthRowPoints(j, iEnd - 1);
    }
  }

  lemma {:induction false} LengthColumnPoints(i: nat, jEnd: nat)
    ensures |ColumnPoints(i, jEnd)| == jEnd
  {
    if jEnd > 0 {
      LengthColumnPoints(i, jEnd - 1);
    }
  }

  /** The interior sweep of rows 1 .. jEnd-1 visits (jEnd-1)*(imax-2) points. */
  lemma {:induction false} LengthInteriorPoints(imax: nat, jEnd: nat)
    requires imax >= 2 && jEnd >= 1
    ensures |InteriorPoints(imax, jEnd)| == (jEnd - 1) * (imax - 2)
  {
    if jEnd > 1 {
      LengthInteriorPoints(imax, jEnd - 1);
      LengthRowPoints(jEnd - 1, imax - 1);
      assert (jEnd - 2) * (imax - 2) + (imax - 2) == (jEnd - 1) * (imax - 2);
    }
  }
}
