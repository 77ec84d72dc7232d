/**
  Sparse matrices built from (row, col, value) triplets, as a triplet list is
  turned into a matrix by setFromTriplets: every (row, col) that occurs gets
  one stored entry, the sum of the values of the triplets at that position.
 */
module SparseSystem {

  datatype Triplet = Triplet(row: nat, col: nat, value: real)

  /** A sparse matrix: the stored entries, keyed by (row, col). */
  type Matrix = map<(nat, nat), real>

  /** A[r][c]: the stored value, or 0 where nothing is stored. */
  function Entry(A: Matrix, r: nat, c: nat): real
  {
    if (r, c) in A then A[(r, c)] else 0.0
  }

  /** Sum of the values of the triplets at (r, c). */
  function SumAt(ts: seq<Triplet>, r: nat, c: nat): real
  {
    if ts == [] then 0.0
    else
      var t := ts[|ts| - 1];
      SumAt(ts[..|ts| - 1], r, c) + (if t.row == r && t.col == c then t.value else 0.0)
  }

  /** Some triplet of ts sits at (r, c). */
  predicate Emitted(ts: seq<Triplet>, r: nat, c: nat)
  {
    exists p :: 0 <= p < |ts| && ts[p].row == r && ts[p].col == c
  }

  /**
    The matrix of a triplet list: an entry is stored exactly at the positions
    that some triplet names, and A[r][c] is the sum of the values at (r, c).
   */
  function SetFromTriplets(ts: seq<Triplet>): (A: Matrix)
    ensures forall r: nat, c: nat :: (r, c) in A <==> Emitted(ts, r, c)
    ensures forall r: nat, c: nat :: Entry(A, r, c) == SumAt(ts, r, c)
  {
    if ts == [] then map[]
    else
      var prefix, t := ts[..|ts| - 1], ts[|ts| - 1];
      var A := SetFromTriplets(prefix);
      assert forall r: nat, c: nat :: Emitted(ts, r, c) <==> Emitted(prefix, r, c) || (t.row == r && t.col == c) by {
        forall r: nat, c: nat | Emitted(ts, r, c) ensures Emitted(prefix, r, c) || (t.row == r && t.col == c) {
          var p :| 0 <= p < |ts| && ts[p].row == r && ts[p].col == c;
          if p < |prefix| {
            assert prefix[p] == ts[p];
          }
        }
        forall r: nat, c: nat | Emitted(prefix, r, c) ensures Emitted(ts, r, c) {
          var p :| 0 <= p < |prefix| && prefix[p].row == r && prefix[p].col == c;
          assert ts[p] == prefix[p];
        }
        assert ts[|ts| - 1] == t;
      }
      A[(t.row, t.col) := Entry(A, t.row, t.col) + t.value]
  }

  /** The triplets of ts whose row is r, in their order in ts. */
  function RowEntries(ts: seq<Triplet>, r: nat): seq<Triplet>
  {
    if ts == [] then []
    else RowEntries(ts[..|ts| - 1], r) + (if ts[|ts| - 1].row == r then [ts[|ts| - 1]] else [])
  }

  /** No (row, col) position is named by two triplets. */
  predicate DistinctPairs(ts: seq<Triplet>)
  {
    forall p, q :: 0 <= p < q < |ts| ==> ts[p].row != ts[q].row || ts[p].col != ts[q].col
  }

  lemma {:induction false} RowEntriesAppend(s: seq<Triplet>, t: seq<Triplet>, r: nat)
    ensures RowEntries(s + t, r) == RowEntries(s, r) + RowEntries(t, r)
  {
    if t == [] {
      assert s + t == s;
    } else {
      assert (s + t)[..|s + t| - 1] == s + t[..|t| - 1];
      RowEntriesAppend(s, t[..|t| - 1], r);
    }
  }

  /** Filtering a list whose triplets all lie in row k keeps all of it or none of it. */
  lemma {:induction false} RowEntriesOfOneRow(ts: seq<Triplet>, k: nat, r: nat)
    requires forall p :: 0 <= p < |ts| ==> ts[p].row == k
    ensures RowEntries(ts, r) == if k == r then ts else []
  {
    if ts != [] {
      RowEntriesOfOneRow(ts[..|ts| - 1], k, r);
      assert ts[..|ts| - 1] + [ts[|ts| - 1]] == ts;
    }
  }

  /** A row that no triplet names has no entries. */
  lemma {:induction false} RowEntriesNone(ts: seq<Triplet>, r: nat)
    requires forall p :: 0 <= p < |ts| ==> ts[p].row != r
    ensures RowEntries(ts, r) == []
  {
    if ts != [] {
      RowEntriesNone(ts[..|ts| - 1], r);
    }
  }

  lemma {:induction false} RowEntriesRows(ts: seq<Triplet>, r: nat)
    ensures forall p :: 0 <= p < |RowEntries(ts, r)| ==> RowEntries(ts, r)[p].row == r
  {
    if ts != [] {
      RowEntriesRows(ts[..|ts| - 1], r);
    }
  }

  /** Every triplet appears among the entries of its own row. */
  lemma {:induction false} InRowEntries(ts: seq<Triplet>, p: nat)
    requires p < |ts|
    ensures ts[p] in RowEntries(ts, ts[p].row)
  {
    if p < |ts| - 1 {
      InRowEntries(ts[..|ts| - 1], p);
      assert ts[..|ts| - 1][p] == ts[p];
    }
  }

  /** Only the triplets of row r contribute to A[r][c]. */
  lemma {:induction false} SumAtRowEntries(ts: seq<Triplet>, r: nat, c: nat)
    ensures SumAt(ts, r, c) == SumAt(RowEntries(ts, r), r, c)
  {
    if ts != [] {
      var prefix, t := ts[..|ts| - 1], ts[|ts| - 1];
      SumAtRowEntries(prefix, r, c);
      if t.row == r {
        var e := RowEntries(ts, r);
        assert e == RowEntries(prefix, r) + [t];
        assert e[..|e| - 1] == RowEntries(prefix, r) && e[|e| - 1] == t;
        assert SumAt(e, r, c) == SumAt(RowEntries(prefix, r), r, c) + (if t.col == c then t.value else 0.0);
      } else {
        assert RowEntries(ts, r) == RowEntries(prefix, r) + [];
        assert RowEntries(prefix, r) + [] == RowEntries(prefix, r);
      }
    }
  }

  /** The triplet list has no repeated position if no row of it has one. */
  lemma {:induction false} DistinctPairsByRows(ts: seq<Triplet>)
    requires forall r: nat :: DistinctPairs(RowEntries(ts, r))
    ensures DistinctPairs(ts)
  {
    if ts != [] {
      var prefix, t := ts[..|ts| - 1], ts[|ts| - 1];
      forall r: nat ensures DistinctPairs(RowEntries(prefix, r)) {
        var e := RowEntries(ts, r);
        assert RowEntries(prefix, r) == e[..|RowEntries(prefix, r)|];
      }
      DistinctPairsByRows(prefix);
      forall p | 0 <= p < |prefix| && prefix[p].row == t.row ensures prefix[p].col != t.col {
        InRowEntries(prefix, p);
        var e := RowEntries(prefix, t.row);
        var q :| 0 <= q < |e| && e[q] == prefix[p];
        var e' := RowEntries(ts, t.row);
        assert e' == e + [t];
        assert e'[q] == prefix[p] && e'[|e|] == t;
      }
      forall p, q | 0 <= p < q < |ts| ensures ts[p].row != ts[q].row || ts[p].col != ts[q].col {
        assert ts[p] == prefix[p];
        if q < |prefix| {
          assert ts[q] == prefix[q];
        }
      }
    }
  }

  /**
    With no repeated position, summing changes nothing: A[r][c] is the value of
    the one triplet at (r, c), and 0 where no triplet is.
   */
  lemma {:induction false} SumAtDistinct(ts: seq<Triplet>, r: nat, c: nat)
    requires DistinctPairs(ts)
    ensures forall p :: 0 <= p < |ts| && ts[p].row == r && ts[p].col == c ==> SumAt(ts, r, c) == ts[p].value
    ensures !Emitted(ts, r, c) ==> SumAt(ts, r, c) == 0.0
  {
    if ts != [] {
      var prefix, t := ts[..|ts| - 1], ts[|ts| - 1];
      assert DistinctPairs(prefix) by {
        forall p, q | 0 <= p < q < |prefix| ensures prefix[p].row != prefix[q].row || prefix[p].col != prefix[q].col {
          assert prefix[p] == ts[p] && prefix[q] == ts[q];
        }
      }
      SumAtDistinct(prefix, r, c);
      if t.row == r && t.col == c {
        forall p | 0 <= p < |prefix| ensures prefix[p].row != r || prefix[p].col != c {
          assert ts[p] == prefix[p] && ts[|ts| - 1] == t;
        }
      } else {
        forall p | 0 <= p < |prefix| && prefix[p].row == r && prefix[p].col == c
          ensures Emitted(ts, r, c)
        {
          assert ts[p] == prefix[p];
        }
      }
      forall p | 0 <= p < |ts| - 1 ensures ts[p] == prefix[p] {
      }
    }
  }
}
