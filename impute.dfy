/** `imputar_salary_por_grupos` (data_cleaning.py:370-423): missing values of
    a numeric column are filled in three passes, by the median of the row's
    (education, loyalty_card) group, then by the median of its education
    group over the partly filled column, then by the median of the whole
    column. */
module Impute {
  import opened Wrappers
  import opened Frames
  import opened Stats

  /** The rows whose key is `k` and whose entry is `x`. */
  ghost function RowsWith<K>(keys: seq<Option<K>>, col: seq<Option<real>>, k: K, x: Option<real>): set<nat>
    requires |keys| == |col|
  {
    set i: nat | i < |col| && keys[i] == Some(k) && col[i] == x
  }

  /** `r` holds each entry as many times as a row keyed `k` holds it. */
  ghost predicate GroupCounts<K>(keys: seq<Option<K>>, col: seq<Option<real>>, k: K, r: seq<Option<real>>)
    requires |keys| == |col|
  {
    forall x :: multiset(r)[x] == |RowsWith(keys, col, k, x)|
  }

  /** The entries of `col` in the rows whose key is `k`, in order: each entry
      as many times as a row keyed `k` holds it. */
  function GroupValues<K(==)>(keys: seq<Option<K>>, col: seq<Option<real>>, k: K): (r: seq<Option<real>>)
    requires |keys| == |col|
    ensures forall x :: x in r ==> x in col
    ensures GroupCounts(keys, col, k, r)
  {
    if |col| == 0 then []
    else
      var n := |col| - 1;
      var init := GroupValues(keys[..n], col[..n], k);
      var last := if keys[n] == Some(k) then [col[n]] else [];
      assert forall x :: x in col[..n] ==> x in col;
      forall x ensures multiset(init + last)[x] == |RowsWith(keys, col, k, x)| {
        RowsWithSnoc(keys, col, k, x);
      }
      assert GroupCounts(keys, col, k, init + last);
      init + last
  }

  /** The last row adds itself to its own group and entry, and to no other. */
  lemma RowsWithSnoc<K>(keys: seq<Option<K>>, col: seq<Option<real>>, k: K, x: Option<real>)
    requires |keys| == |col| > 0
    ensures var n := |col| - 1;
      |RowsWith(keys, col, k, x)| ==
        |RowsWith(keys[..n], col[..n], k, x)| + (if keys[n] == Some(k) && col[n] == x then 1 else 0)
  {
    var n := |col| - 1;
    RowsWithSplit(keys, col, k, x);
    assert n !in RowsWith(keys[..n], col[..n], k, x);
  }

  lemma RowsWithSplit<K>(keys: seq<Option<K>>, col: seq<Option<real>>, k: K, x: Option<real>)
    requires |keys| == |col| > 0
    ensures var n := |col| - 1;
      RowsWith(keys, col, k, x) ==
        RowsWith(keys[..n], col[..n], k, x) + (if keys[n] == Some(k) && col[n] == x then {n} else {})
  {
    var n := |col| - 1;
    var before := RowsWith(keys[..n], col[..n], k, x);
    var all := RowsWith(keys, col, k, x);
    assert forall i :: i in before <==> i in all && i < n;
  }

  /** `groupby(keys)[col].transform("median")`: each row gets the median of
      the present values of its group. A row whose key is missing belongs to
      no group (pandas drops missing keys), and a group without present
      values has no median; both give `None`. */
  function GroupMedians<K(==)>(keys: seq<Option<K>>, col: seq<Option<real>>): (m: seq<Option<real>>)
    requires |keys| == |col|
    ensures |m| == |col|
    ensures forall i :: 0 <= i < |col| && keys[i].None? ==> m[i].None?
    ensures forall i, j :: 0 <= i < |col| && 0 <= j < |col| && keys[i] == keys[j] ==> m[i] == m[j]
  {
    seq(|col|, i requires 0 <= i < |col| =>
      if keys[i].None? then None else Median(Present(GroupValues(keys, col, keys[i].value))))
  }

  /** `col.fillna(fill)`: missing entries take the entry of `fill` in the same row. */
  function FillMissing(col: seq<Option<real>>, fill: seq<Option<real>>): (r: seq<Option<real>>)
    requires |fill| == |col|
    ensures |r| == |col|
    ensures forall i :: 0 <= i < |col| && col[i].Some? ==> r[i] == col[i]
    ensures forall i :: 0 <= i < |col| && fill[i].Some? ==> r[i].Some?
  {
    seq(|col|, i requires 0 <= i < |col| => if col[i].Some? then col[i] else fill[i])
  }

  /** The two grouping columns as one key; missing when either part is. */
  function PairKeys(a: seq<Option<Cell>>, b: seq<Option<Cell>>): (r: seq<Option<(Cell, Cell)>>)
    requires |a| == |b|
    ensures |r| == |a|
  {
    seq(|a|, i requires 0 <= i < |a| => if a[i].Some? && b[i].Some? then Some((a[i].value, b[i].value)) else None)
  }

  /** The medians of the first pass, per row. */
  function PairMedians(edu: seq<Option<Cell>>, card: seq<Option<Cell>>, col: seq<Option<real>>): (m: seq<Option<real>>)
    requires |edu| == |col| && |card| == |col|
    ensures |m| == |col|
  {
    GroupMedians(PairKeys(edu, card), col)
  }

  /** The column after the first pass (data_cleaning.py:404-405). */
  function AfterPairPass(edu: seq<Option<Cell>>, card: seq<Option<Cell>>, col: seq<Option<real>>): (r: seq<Option<real>>)
    requires |edu| == |col| && |card| == |col|
    ensures |r| == |col|
  {
    FillMissing(col, PairMedians(edu, card, col))
  }

  /** The medians of the second pass: by education, over the column as
      filled by the first pass. */
  function EducationMedians(edu: seq<Option<Cell>>, card: seq<Option<Cell>>, col: seq<Option<real>>): (m: seq<Option<real>>)
    requires |edu| == |col| && |card| == |col|
    ensures |m| == |col|
  {
    GroupMedians(edu, AfterPairPass(edu, card, col))
  }

  /** The column after the second pass (data_cleaning.py:408-409). */
  function AfterEducationPass(edu: seq<Option<Cell>>, card: seq<Option<Cell>>, col: seq<Option<real>>): (r: seq<Option<real>>)
    requires |edu| == |col| && |card| == |col|
    ensures |r| == |col|
  {
    FillMissing(AfterPairPass(edu, card, col), EducationMedians(edu, card, col))
  }

  /** The median of the third pass, over the column after the second pass. */
  function OverallMedian(edu: seq<Option<Cell>>, card: seq<Option<Cell>>, col: seq<Option<real>>): Option<real>
    requires |edu| == |col| && |card| == |col|
  {
    Median(Present(AfterEducationPass(edu, card, col)))
  }

  /** The column after the third pass (data_cleaning.py:412-413). */
  function Imputed(edu: seq<Option<Cell>>, card: seq<Option<Cell>>, col: seq<Option<real>>): (r: seq<Option<real>>)
    requires |edu| == |col| && |card| == |col|
    ensures |r| == |col|
  {
    FillMissing(AfterEducationPass(edu, card, col), seq(|col|, _ => OverallMedian(edu, card, col)))
  }

  /** Every present entry lies in [lo, hi]. */
  predicate Within(v: seq<Option<real>>, lo: real, hi: real) {
    forall i :: 0 <= i < |v| && v[i].Some? ==> lo <= v[i].value <= hi
  }

  /** A median of values in [lo, hi] lies in [lo, hi]. */
  lemma MedianWithin(v: seq<Option<real>>, lo: real, hi: real)
    requires Within(v, lo, hi)
    ensures var m := Median(Present(v)); m.Some? ==> lo <= m.value <= hi
  {
    var s := Present(v);
    if s != [] {
      PresentWithin(v, lo, hi);
      MedianBetween(s);
    }
  }

  /** The present values of a column within [lo, hi] lie in [lo, hi]. */
  lemma PresentWithin(v: seq<Option<real>>, lo: real, hi: real)
    requires Within(v, lo, hi)
    ensures forall k :: 0 <= k < |Present(v)| ==> lo <= Present(v)[k] <= hi
  {
    var s := Present(v);
    forall k | 0 <= k < |s| ensures lo <= s[k] <= hi {
      assert s[k] in s;
      var i :| 0 <= i < |v| && v[i] == Some(s[k]);
    }
  }

  /** Group medians of values in [lo, hi] lie in [lo, hi]. */
  lemma GroupMediansWithin<K>(keys: seq<Option<K>>, col: seq<Option<real>>, lo: real, hi: real)
    requires |keys| == |col| && Within(col, lo, hi)
    ensures Within(GroupMedians(keys, col), lo, hi)
  {
    var m := GroupMedians(keys, col);
    forall i | 0 <= i < |m| && m[i].Some? ensures lo <= m[i].value <= hi {
      var group := GroupValues(keys, col, keys[i].value);
      assert Within(group, lo, hi) by {
        forall j | 0 <= j < |group| && group[j].Some? ensures lo <= group[j].value <= hi {
          assert group[j] in col;
        }
      }
      MedianWithin(group, lo, hi);
    }
  }

  /** Without any present value there is nothing to take a median of. */
  lemma GroupMediansOfNothing<K>(keys: seq<Option<K>>, col: seq<Option<real>>)
    requires |keys| == |col| && forall i :: 0 <= i < |col| ==> col[i].None?
    ensures forall i :: 0 <= i < |col| ==> GroupMedians(keys, col)[i].None?
  {
    forall i | 0 <= i < |col| && keys[i].Some?
      ensures GroupMedians(keys, col)[i].None?
    {
      var group := GroupValues(keys, col, keys[i].value);
      assert forall j :: 0 <= j < |group| ==> group[j] in col;
    }
  }

  /** Filling never removes a present value, so it never adds a missing one. */
  lemma {:induction false} FillCountsMissing(a: seq<Option<real>>, b: seq<Option<real>>)
    requires |a| == |b| && forall i :: 0 <= i < |a| && a[i].Some? ==> b[i].Some?
    ensures CountMissing(b) <= CountMissing(a)
    decreases |a|
  {
    if |a| > 0 {
      var n := |a| - 1;
      FillCountsMissing(a[..n], b[..n]);
    }
  }

  /** The three passes of data_cleaning.py:401-415 on a copy of the column,
      with the counts the script reports. A value that was present is never
      changed; a missing one takes the first median that exists, in the
      order (education, loyalty_card) group, education group, whole column;
      nothing is left missing unless nothing was present to begin with; and
      every filled value lies within the range of the present ones. */
  method ImputeByGroups(edu: seq<Option<Cell>>, card: seq<Option<Cell>>, col: seq<Option<real>>)
    returns (out: seq<Option<real>>, before: nat, imputed: nat, after: nat)
    requires |edu| == |col| && |card| == |col|
    ensures out == Imputed(edu, card, col)
    ensures forall i :: 0 <= i < |col| && col[i].Some? ==> out[i] == col[i]
    ensures forall i :: 0 <= i < |col| && col[i].None? ==>
      out[i] == (if PairMedians(edu, card, col)[i].Some? then PairMedians(edu, card, col)[i]
                 else if EducationMedians(edu, card, col)[i].Some? then EducationMedians(edu, card, col)[i]
                 else OverallMedian(edu, card, col))
    ensures (exists i :: 0 <= i < |col| && col[i].Some?) ==> forall i :: 0 <= i < |out| ==> out[i].Some?
    ensures (forall i :: 0 <= i < |col| ==> col[i].None?) ==> out == col
    ensures forall lo, hi :: Within(col, lo, hi) ==> Within(out, lo, hi)
    ensures before == CountMissing(col) && after == CountMissing(out)
    ensures after <= before && imputed == before - after
  {
    before := CountMissing(col);
    // 1) median of the (education, loyalty_card) group
    var pass1 := FillMissing(col, GroupMedians(PairKeys(edu, card), col));
    // 2) median of the education group, over the column as filled so far
    var pass2 := FillMissing(pass1, GroupMedians(edu, pass1));
    // 3) median of the whole column
    var overall := Median(Present(pass2));
    out := FillMissing(pass2, seq(|pass2|, _ => overall));
    assert pass1 == AfterPairPass(edu, card, col);
    assert pass2 == AfterEducationPass(edu, card, col);
    assert out == Imputed(edu, card, col);
    ImputedFacts(edu, card, col);
    after := CountMissing(out);
    FillCountsMissing(col, out);
    imputed := before - after;
  }

  /** The facts about the three passes that `ImputeByGroups` reports. */
  lemma ImputedFacts(edu: seq<Option<Cell>>, card: seq<Option<Cell>>, col: seq<Option<real>>)
    requires |edu| == |col| && |card| == |col|
    ensures var out := Imputed(edu, card, col);
      && (forall i :: 0 <= i < |col| && col[i].Some? ==> out[i] == col[i])
      && (forall i :: 0 <= i < |col| && col[i].None? ==>
            out[i] == (if PairMedians(edu, card, col)[i].Some? then PairMedians(edu, card, col)[i]
                       else if EducationMedians(edu, card, col)[i].Some? then EducationMedians(edu, card, col)[i]
                       else OverallMedian(edu, card, col)))
      && ((exists i :: 0 <= i < |col| && col[i].Some?) ==> forall i :: 0 <= i < |out| ==> out[i].Some?)
      && ((forall i :: 0 <= i < |col| ==> col[i].None?) ==> out == col)
      && (forall lo, hi :: Within(col, lo, hi) ==> Within(out, lo, hi))
  {
    var out := Imputed(edu, card, col);
    forall i | 0 <= i < |col| && col[i].Some? ensures out[i] == col[i] {
      ImputeKeepsPresent(edu, card, col, i);
    }
    if i :| 0 <= i < |col| && col[i].Some? {
      ImputeFillsAll(edu, card, col, i);
    } else {
      ImputeOfNothing(edu, card, col);
    }
    forall lo, hi | Within(col, lo, hi) ensures Within(out, lo, hi) {
      ImputeWithin(edu, card, col, lo, hi);
    }
  }

  /** Present values survive all three passes. */
  lemma ImputeKeepsPresent(edu: seq<Option<Cell>>, card: seq<Option<Cell>>, col: seq<Option<real>>, i: nat)
    requires |edu| == |col| && |card| == |col| && i < |col| && col[i].Some?
    ensures AfterEducationPass(edu, card, col)[i] == col[i]
    ensures Imputed(edu, card, col)[i] == col[i]
  {
    assert AfterPairPass(edu, card, col)[i] == col[i];
  }

  /** One present value is enough for the third pass to fill every row. */
  lemma ImputeFillsAll(edu: seq<Option<Cell>>, card: seq<Option<Cell>>, col: seq<Option<real>>, i: nat)
    requires |edu| == |col| && |card| == |col| && i < |col| && col[i].Some?
    ensures forall k :: 0 <= k < |col| ==> Imputed(edu, card, col)[k].Some?
  {
    var pass2 := AfterEducationPass(edu, card, col);
    ImputeKeepsPresent(edu, card, col, i);
    assert pass2[i].Some?;
    assert OverallMedian(edu, card, col).Some?;
  }

  /** With no present value, no pass has a median to fill with. */
  lemma ImputeOfNothing(edu: seq<Option<Cell>>, card: seq<Option<Cell>>, col: seq<Option<real>>)
    requires |edu| == |col| && |card| == |col| && forall i :: 0 <= i < |col| ==> col[i].None?
    ensures Imputed(edu, card, col) == col
  {
    var pass1 := AfterPairPass(edu, card, col);
    GroupMediansOfNothing(PairKeys(edu, card), col);
    assert pass1 == col;
    GroupMediansOfNothing(edu, pass1);
    assert AfterEducationPass(edu, card, col) == col;
  }

  /** Every median taken lies in any range that holds all present values,
      so the filled column stays in that range. */
  lemma ImputeWithin(edu: seq<Option<Cell>>, card: seq<Option<Cell>>, col: seq<Option<real>>, lo: real, hi: real)
    requires |edu| == |col| && |card| == |col| && Within(col, lo, hi)
    ensures Within(Imputed(edu, card, col), lo, hi)
  {
    var pass1 := AfterPairPass(edu, card, col);
    var pass2 := AfterEducationPass(edu, card, col);
    GroupMediansWithin(PairKeys(edu, card), col, lo, hi);
    assert Within(pass1, lo, hi);
    GroupMediansWithin(edu, pass1, lo, hi);
    assert Within(pass2, lo, hi);
    MedianWithin(pass2, lo, hi);
  }

  /** `imputar_salary_por_grupos(df, columna)` on a copy of the table. The
      lookups fail in the script's order: the column itself (line 401), then
      `education` and `loyalty_card` (line 404), then a text column cannot
      be averaged. Only the imputed column changes. */
  method ImputeSalary(t: Table, name: string) returns (r: Result<Table>, imputed: nat)
    requires WellFormed(t)
    ensures r.Err? <==>
      name !in t.names || "education" !in t.names || "loyalty_card" !in t.names
      || !t.cols[Find(t.names, name).value].Num?
    ensures r.Err? ==>
      r.error == (if name !in t.names then MissingColumn(name)
                  else if "education" !in t.names then MissingColumn("education")
                  else if "loyalty_card" !in t.names then MissingColumn("loyalty_card")
                  else NotNumeric(name))
    ensures r.Ok? ==>
      var j := Find(t.names, name).value;
      var edu := t.cols[Find(t.names, "education").value].Cells();
      var card := t.cols[Find(t.names, "loyalty_card").value].Cells();
      var col := t.cols[j].nums;
      && WellFormed(r.value) && r.value.names == t.names && |r.value.cols| == |t.cols|
      && (forall k :: 0 <= k < |t.cols| && k != j ==> r.value.cols[k] == t.cols[k])
      && r.value.cols[j] == Num(Imputed(edu, card, col))
      && imputed == CountMissing(col) - CountMissing(r.value.cols[j].nums)
  {
    imputed := 0;
    if name !in t.names {
      return Err(MissingColumn(name)), 0;
    }
    var edu := CellColumn(t, "education");
    if edu.Err? {
      return Err(edu.error), 0;
    }
    var card := CellColumn(t, "loyalty_card");
    if card.Err? {
      return Err(card.error), 0;
    }
    var col := NumericColumn(t, name);
    if col.Err? {
      return Err(col.error), 0;
    }
    var out, before, after;
    out, before, imputed, after := ImputeByGroups(edu.value, card.value, col.value);
    r := Ok(SetColumn(t, Find(t.names, name).value, Num(out)));
  }
}
