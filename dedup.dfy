/** `eliminar_filas_duplicadas` (data_cleaning.py:218-263): drop rows that
    equal another row in every column, keeping the first occurrence, the last
    one, or none of them. */
module Dedup {
  import opened Wrappers
  import opened Frames

  /** The `keep` argument: 'first', 'last' or False. */
  datatype Keep = KeepFirst | KeepLast | KeepNone

  /** Whether the row at position `i` survives `drop_duplicates(keep=...)`:
      with 'first' no earlier row equals it, with 'last' no later one, and
      with False no other one at all. */
  predicate Survives<R(==)>(rows: seq<R>, i: nat, keep: Keep)
    requires i < |rows|
  {
    match keep
    case KeepFirst => forall j :: 0 <= j < i ==> rows[j] != rows[i]
    case KeepLast => forall j :: i < j < |rows| ==> rows[j] != rows[i]
    case KeepNone => forall j :: 0 <= j < |rows| && j != i ==> rows[j] != rows[i]
  }

  /** Positions into `rows`, in increasing order. */
  predicate Increasing(idx: seq<nat>, n: nat) {
    && (forall k :: 0 <= k < |idx| ==> idx[k] < n)
    && (forall k, l :: 0 <= k < l < |idx| ==> idx[k] < idx[l])
  }

  /** Exactly the surviving positions, in order. */
  predicate SurvivorsOf<R(==)>(rows: seq<R>, keep: Keep, idx: seq<nat>) {
    && Increasing(idx, |rows|)
    && (forall k :: 0 <= k < |idx| ==> Survives(rows, idx[k], keep))
    && (forall i :: 0 <= i < |rows| && Survives(rows, i, keep) ==> i in idx)
  }

  /** Scans the rows once and keeps the index of every survivor. */
  method Survivors<R(==)>(rows: seq<R>, keep: Keep) returns (idx: seq<nat>)
    ensures SurvivorsOf(rows, keep, idx)
  {
    idx := [];
    for i := 0 to |rows|
      invariant Increasing(idx, i)
      invariant forall k :: 0 <= k < |idx| ==> Survives(rows, idx[k], keep)
      invariant forall j :: 0 <= j < i && Survives(rows, j, keep) ==> j in idx
    {
      if Survives(rows, i, keep) {
        idx := idx + [i];
      }
    }
  }

  /** Increasing positions below `n` are at most `n` many. */
  lemma {:induction false} IncreasingBound(idx: seq<nat>, n: nat)
    requires Increasing(idx, n)
    ensures |idx| <= n
    decreases |idx|
  {
    if |idx| > 0 {
      var init := idx[..|idx| - 1];
      assert Increasing(init, idx[|idx| - 1]);
      IncreasingBound(init, idx[|idx| - 1]);
    }
  }

  /** The surviving rows are pairwise different, whatever the policy. */
  lemma SurvivorsDistinct<R>(rows: seq<R>, keep: Keep, idx: seq<nat>, k: nat, l: nat)
    requires SurvivorsOf(rows, keep, idx)
    requires k < l < |idx|
    ensures rows[idx[k]] != rows[idx[l]]
  {
    assert idx[k] < idx[l];
    match keep
    case KeepFirst => assert Survives(rows, idx[l], keep);
    case KeepLast => assert Survives(rows, idx[k], keep);
    case KeepNone => assert Survives(rows, idx[l], keep);
  }

  /** With 'first', the earliest occurrence of every row value survives. */
  lemma {:induction false} FirstOccurrenceSurvives<R>(rows: seq<R>, i: nat)
    requires i < |rows|
    ensures exists j :: 0 <= j <= i && rows[j] == rows[i] && Survives(rows, j, KeepFirst)
    decreases i
  {
    if !Survives(rows, i, KeepFirst) {
      var j :| 0 <= j < i && rows[j] == rows[i];
      FirstOccurrenceSurvives(rows, j);
    }
  }

  /** With 'last', the latest occurrence of every row value survives. */
  lemma {:induction false} LastOccurrenceSurvives<R>(rows: seq<R>, i: nat)
    requires i < |rows|
    ensures exists j :: i <= j < |rows| && rows[j] == rows[i] && Survives(rows, j, KeepLast)
    decreases |rows| - i
  {
    if !Survives(rows, i, KeepLast) {
      var j :| i < j < |rows| && rows[j] == rows[i];
      LastOccurrenceSurvives(rows, j);
    }
  }

  /** With 'first' or 'last' no row value is lost: every row of the input
      equals some surviving row. */
  lemma SurvivorsCover<R>(rows: seq<R>, keep: Keep, idx: seq<nat>, i: nat)
    requires SurvivorsOf(rows, keep, idx) && keep != KeepNone
    requires i < |rows|
    ensures exists k :: 0 <= k < |idx| && rows[idx[k]] == rows[i]
  {
    var j: nat;
    if keep == KeepFirst {
      FirstOccurrenceSurvives(rows, i);
      j :| 0 <= j <= i && rows[j] == rows[i] && Survives(rows, j, KeepFirst);
    } else {
      LastOccurrenceSurvives(rows, i);
      j :| i <= j < |rows| && rows[j] == rows[i] && Survives(rows, j, KeepLast);
    }
    assert j in idx;
    var k :| 0 <= k < |idx| && idx[k] == j;
  }

  /** The row at position `i`: one cell per column. */
  function RowAt(t: Table, i: nat): (row: seq<Option<Cell>>)
    requires WellFormed(t) && i < Rows(t)
    ensures |row| == |t.cols|
  {
    seq(|t.cols|, j requires 0 <= j < |t.cols| => t.cols[j].Cells()[i])
  }

  /** All rows, top to bottom. */
  function AllRows(t: Table): (rows: seq<seq<Option<Cell>>>)
    requires WellFormed(t)
    ensures |rows| == Rows(t)
  {
    seq(Rows(t), i requires 0 <= i < Rows(t) => RowAt(t, i))
  }

  /** The entries of a column at the given positions, in that order. */
  function TakeCells(c: Column, idx: seq<nat>): (r: Column)
    requires forall k :: 0 <= k < |idx| ==> idx[k] < c.Length()
    ensures r.Num? == c.Num? && r.Length() == |idx|
    ensures forall k :: 0 <= k < |idx| ==> r.Cells()[k] == c.Cells()[idx[k]]
  {
    match c
    case Num(v) =>
      assert |v| == c.Length();
      Num(seq(|idx|, k requires 0 <= k < |idx| => v[idx[k]]))
    case Str(v) =>
      assert |v| == c.Length();
      Str(seq(|idx|, k requires 0 <= k < |idx| => v[idx[k]]))
  }

  /** The table restricted to the rows at `idx`, labels unchanged. */
  function TakeRows(t: Table, idx: seq<nat>): (r: Table)
    requires WellFormed(t) && Increasing(idx, Rows(t))
    ensures WellFormed(r) && r.names == t.names && Rows(r) == |idx|
    ensures forall k :: 0 <= k < |idx| ==> RowAt(r, k) == RowAt(t, idx[k])
  {
    var cols := seq(|t.cols|, j requires 0 <= j < |t.cols| => TakeCells(t.cols[j], idx));
    var r := Table(t.names, cols);
    assert forall j :: 0 <= j < |cols| ==> cols[j].Length() == |idx|;
    assert |idx| > 0 ==> idx[0] < Rows(t);
    assert |cols| == 0 ==> Rows(t) == 0 && idx == [];
    assert forall k :: 0 <= k < |idx| ==> RowAt(r, k) == RowAt(t, idx[k]) by {
      forall k | 0 <= k < |idx| ensures RowAt(r, k) == RowAt(t, idx[k]) {
        assert forall j :: 0 <= j < |t.cols| ==> RowAt(r, k)[j] == RowAt(t, idx[k])[j];
      }
    }
    r
  }

  /** No two rows of the table are equal. */
  predicate DistinctRows(t: Table)
    requires WellFormed(t)
  {
    forall k, l :: 0 <= k < l < Rows(t) ==> RowAt(t, k) != RowAt(t, l)
  }

  /** Every row of `t` is also a row of `r`: no row value is lost. */
  predicate KeepsEveryRow(r: Table, t: Table)
    requires WellFormed(r) && WellFormed(t)
  {
    forall i :: 0 <= i < Rows(t) ==> RowAt(t, i) in AllRows(r)
  }

  /** When no two rows are equal every row survives, so the survivors are
      all positions in order. */
  lemma {:induction false} AllSurvive<R>(rows: seq<R>, keep: Keep, idx: seq<nat>, k: nat)
    requires forall i, j :: 0 <= i < j < |rows| ==> rows[i] != rows[j]
    requires SurvivorsOf(rows, keep, idx) && k < |idx|
    ensures idx[k] == k
    decreases k
  {
    forall m | 0 <= m < k ensures idx[m] == m {
      AllSurvive(rows, keep, idx, m);
    }
    if k > 0 {
      assert idx[k - 1] == k - 1 < idx[k];
    }
    assert k <= idx[k] < |rows|;
    var i := k;
    assert Survives(rows, i, keep);
    var p :| 0 <= p < |idx| && idx[p] == i;
    if p < k {
      assert idx[p] == p;
    } else if p > k {
      assert idx[k] < idx[p];
    }
  }

  /** Removing duplicates from a table without duplicate rows keeps every
      row and returns the table itself: `drop_duplicates` is idempotent, as
      `EliminateDuplicateRows` leaves pairwise different rows behind. */
  lemma DedupIdempotent(t: Table, keep: Keep, idx: seq<nat>)
    requires WellFormed(t) && DistinctRows(t)
    requires SurvivorsOf(AllRows(t), keep, idx)
    ensures |idx| == Rows(t) && TakeRows(t, idx) == t
  {
    var rows := AllRows(t);
    forall i, j | 0 <= i < j < |rows| ensures rows[i] != rows[j] {
      assert rows[i] == RowAt(t, i) && rows[j] == RowAt(t, j);
    }
    forall k | 0 <= k < |idx| ensures idx[k] == k {
      AllSurvive(rows, keep, idx, k);
    }
    IncreasingBound(idx, |rows|);
    if |idx| < |rows| {
      assert Survives(rows, |idx|, keep);
    }
    var r := TakeRows(t, idx);
    forall j | 0 <= j < |t.cols| ensures r.cols[j] == t.cols[j] {
      TakeAllCells(t.cols[j], idx);
    }
  }

  /** Taking every position in order gives the column back. */
  lemma TakeAllCells(c: Column, idx: seq<nat>)
    requires |idx| == c.Length() && forall k :: 0 <= k < |idx| ==> idx[k] == k
    ensures TakeCells(c, idx) == c
  {
    match c
    case Num(v) => assert TakeCells(c, idx).nums == v;
    case Str(v) => assert TakeCells(c, idx).texts == v;
  }

  /** With 'first' or 'last' the surviving rows of a table still hold every
      row value of it. */
  lemma TakeSurvivorsCovers(t: Table, keep: Keep, idx: seq<nat>)
    requires WellFormed(t) && keep != KeepNone
    requires SurvivorsOf(AllRows(t), keep, idx)
    ensures KeepsEveryRow(TakeRows(t, idx), t)
  {
    var rows := AllRows(t);
    var r := TakeRows(t, idx);
    forall i | 0 <= i < Rows(t) ensures RowAt(t, i) in AllRows(r) {
      SurvivorsCover(rows, keep, idx, i);
      var k :| 0 <= k < |idx| && rows[idx[k]] == rows[i];
      assert rows[idx[k]] == RowAt(t, idx[k]);
      assert rows[i] == RowAt(t, i);
      assert AllRows(r)[k] == RowAt(r, k) == RowAt(t, i);
    }
  }

  /** data_cleaning.py:244-252 on a copy of the table: the table without its
      duplicate rows, the index labels of the rows it keeps, and the counts
      the script reports. Rows are compared cell by cell, missing equal to
      missing. */
  method EliminateDuplicateRows(t: Table, keep: Keep)
    returns (r: Table, index: seq<nat>, before: nat, removed: nat, after: nat)
    requires WellFormed(t)
    ensures WellFormed(r) && r.names == t.names
    ensures SurvivorsOf(AllRows(t), keep, index) && r == TakeRows(t, index)
    ensures before == Rows(t) && after == Rows(r) == |index|
    ensures after <= before && removed == before - after
    ensures forall k :: 0 <= k < after ==> RowAt(r, k) == RowAt(t, index[k])
    ensures forall k, l :: 0 <= k < l < after ==> RowAt(r, k) != RowAt(r, l)
    ensures keep != KeepNone ==> KeepsEveryRow(r, t)
  {
    var rows := AllRows(t);
    before := |rows|;
    index := Survivors(rows, keep);
    r := TakeRows(t, index);
    after := |index|;
    IncreasingBound(index, before);
    removed := before - after;
    forall k, l | 0 <= k < l < after
      ensures RowAt(r, k) != RowAt(r, l)
    {
      SurvivorsDistinct(rows, keep, index, k, l);
    }
    if keep != KeepNone {
      TakeSurvivorsCovers(t, keep, index);
    }
  }
}
