/** `convertir_negativos_a_nulos` (data_cleaning.py:326-367): in one numeric
    column, every negative value becomes missing, and the number of values
    so replaced is reported. */
module Sanitize {
  import opened Wrappers
  import opened Frames

  predicate IsNegative(x: Option<real>) { x.Some? && x.value < 0.0 }

  /** `(df[columna] < 0).sum()`; a missing value is not below zero. */
  function CountNegative(v: seq<Option<real>>): (n: nat)
    ensures n <= |v|
    ensures n == 0 <==> forall i :: 0 <= i < |v| ==> !IsNegative(v[i])
  {
    if |v| == 0 then 0
    else
      var init := v[..|v| - 1];
      assert forall i :: 0 <= i < |init| ==> init[i] == v[i];
      CountNegative(init) + (if IsNegative(v[|v| - 1]) then 1 else 0)
  }

  /** The entry after sanitising: never negative, and changed exactly when
      it was negative. */
  function Sanitized(x: Option<real>): (r: Option<real>)
    ensures !IsNegative(r)
    ensures r != x <==> IsNegative(x)
  {
    if IsNegative(x) then None else x
  }

  /** data_cleaning.py:358-362: count the negatives, then blank them. The
      column keeps its length, has no negative left, keeps every other entry,
      and gains exactly `count` missing entries. */
  method NullNegatives(col: seq<Option<real>>) returns (out: seq<Option<real>>, count: nat)
    ensures |out| == |col|
    ensures forall i :: 0 <= i < |col| ==> out[i] == Sanitized(col[i])
    ensures forall i :: 0 <= i < |out| ==> !IsNegative(out[i])
    ensures count == CountNegative(col)
    ensures CountMissing(out) == CountMissing(col) + count
  {
    out, count := [], 0;
    for i := 0 to |col|
      invariant |out| == i
      invariant forall k :: 0 <= k < i ==> out[k] == Sanitized(col[k])
      invariant count == CountNegative(col[..i])
    {
      CountNegativePrefix(col, i);
      if IsNegative(col[i]) {
        count := count + 1;
      }
      out := out + [Sanitized(col[i])];
    }
    assert col[..|col|] == col;
    SanitizedMissing(col, out);
  }

  lemma CountNegativeSnoc(v: seq<Option<real>>, x: Option<real>)
    ensures CountNegative(v + [x]) == CountNegative(v) + (if IsNegative(x) then 1 else 0)
  {
    assert (v + [x])[..|v|] == v;
  }

  lemma CountNegativePrefix(v: seq<Option<real>>, i: nat)
    requires i < |v|
    ensures CountNegative(v[..i + 1]) == CountNegative(v[..i]) + (if IsNegative(v[i]) then 1 else 0)
  {
    assert v[..i + 1] == v[..i] + [v[i]];
    CountNegativeSnoc(v[..i], v[i]);
  }

  /** Each negative value that is blanked adds one missing value, and no
      missing value goes away. */
  lemma {:induction false} SanitizedMissing(col: seq<Option<real>>, out: seq<Option<real>>)
    requires |out| == |col| && forall k :: 0 <= k < |col| ==> out[k] == Sanitized(col[k])
    ensures CountMissing(out) == CountMissing(col) + CountNegative(col)
    decreases |col|
  {
    if col != [] {
      var n := |col| - 1;
      assert forall k :: 0 <= k < n ==> out[..n][k] == Sanitized(col[..n][k]);
      SanitizedMissing(col[..n], out[..n]);
      assert out[n] == Sanitized(col[n]);
    }
  }

  /** Sanitising twice is sanitising once. */
  lemma NullNegativesIdempotent(col: seq<Option<real>>, out: seq<Option<real>>)
    requires |out| == |col| && forall i :: 0 <= i < |col| ==> out[i] == Sanitized(col[i])
    ensures CountNegative(out) == 0
    ensures forall i :: 0 <= i < |out| ==> Sanitized(out[i]) == out[i]
  {
  }

  /** `convertir_negativos_a_nulos(df, columna)` on a copy of the table. An
      absent label is a KeyError. `df[columna] < 0` on a text column compares
      every present cell with 0, which raises TypeError; a text column with no
      present cell compares to all false, so the copy comes back unchanged
      with count 0. On a numeric column the named column is sanitised and
      every other column is left as it was. */
  method ConvertNegativesToMissing(t: Table, name: string) returns (r: Result<Table>, count: nat)
    requires WellFormed(t)
    ensures r.Err? <==> name !in t.names || HasText(Col(t, name))
    ensures r.Err? ==> count == 0 && r.error == (if name !in t.names then MissingColumn(name) else NotNumeric(name))
    ensures r.Ok? && Col(t, name).Str? ==> r.value == t && count == 0
    ensures r.Ok? && Col(t, name).Num? ==>
      var j := Find(t.names, name).value;
      && WellFormed(r.value) && r.value.names == t.names && |r.value.cols| == |t.cols|
      && (forall k :: 0 <= k < |t.cols| && k != j ==> r.value.cols[k] == t.cols[k])
      && r.value.cols[j].Num?
      && |r.value.cols[j].nums| == |t.cols[j].nums|
      && (forall i :: 0 <= i < |t.cols[j].nums| ==>
            r.value.cols[j].nums[i] == Sanitized(t.cols[j].nums[i]))
      && count == CountNegative(t.cols[j].nums)
  {
    if name !in t.names {
      return Err(MissingColumn(name)), 0;
    }
    var j := Find(t.names, name).value;
    match t.cols[j]
    case Str(_) =>
      if HasText(t.cols[j]) {
        return Err(NotNumeric(name)), 0;
      }
      return Ok(t), 0;
    case Num(v) =>
      var out;
      out, count := NullNegatives(v);
      r := Ok(SetColumn(t, j, Num(out)));
  }
}
