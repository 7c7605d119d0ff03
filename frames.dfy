/** The in-memory table the pipeline works on (a pandas DataFrame): labelled
    columns of equal length, each holding numbers or text, where `None` is a
    missing cell. */
module Frames {
  import opened Wrappers

  /** A scalar, as stored in a numeric or a text column. */
  datatype Cell = NumCell(x: real) | TextCell(s: string)

  /** A numeric column (int64 / float64) or a text column (object dtype). */
  datatype Column =
    | Num(nums: seq<Option<real>>)
    | Str(texts: seq<Option<string>>)
  {
    function Length(): nat {
      match this
      case Num(v) => |v|
      case Str(v) => |v|
    }

    /** The cell in row `i`. */
    function At(i: nat): Option<Cell>
      requires i < Length()
    {
      match this
      case Num(v) => if v[i].Some? then Some(NumCell(v[i].value)) else None
      case Str(v) => if v[i].Some? then Some(TextCell(v[i].value)) else None
    }

    /** The column's values as cells, for grouping and key matching. */
    function Cells(): (r: seq<Option<Cell>>)
      ensures |r| == Length()
    {
      match this
      case Num(v) => seq(|v|, i requires 0 <= i < |v| => if v[i].Some? then Some(NumCell(v[i].value)) else None)
      case Str(v) => seq(|v|, i requires 0 <= i < |v| => if v[i].Some? then Some(TextCell(v[i].value)) else None)
    }
  }

  /** Column labels in order, and the column under each label. */
  datatype Table = Table(names: seq<string>, cols: seq<Column>)

  /** Every label has a column and all columns have the same number of rows. */
  predicate WellFormed(t: Table) {
    && |t.names| == |t.cols|
    && forall j :: 0 <= j < |t.cols| ==> t.cols[j].Length() == Rows(t)
  }

  function Rows(t: Table): nat {
    if |t.cols| == 0 then 0 else t.cols[0].Length()
  }

  /** The errors the script lets escape: no shared column (ValueError at
      data_cleaning.py:53), a missing label (KeyError), a text column compared
      with a number or averaged, two columns whose cells do not compare, and
      `.str` on a numeric column (TypeError / AttributeError). */
  datatype Error =
    | NoCommonKey
    | MissingColumn(name: string)
    | NotNumeric(name: string)
    | NotComparable(left: string, right: string)
    | NotText(name: string)

  datatype Result<+T> = Ok(value: T) | Err(error: Error)

  /** Position of the first column labelled `name` (what `df[name]` selects). */
  function Find(names: seq<string>, name: string): (r: Option<nat>)
    ensures r.None? <==> name !in names
    ensures r.Some? ==> r.value < |names| && names[r.value] == name
    ensures r.Some? ==> forall j :: 0 <= j < r.value ==> names[j] != name
  {
    if |names| == 0 then None
    else if names[0] == name then Some(0)
    else match Find(names[1..], name)
      case None => None
      case Some(k) => Some(k + 1)
  }

  /** `df[name]` on a numeric column. */
  function NumericColumn(t: Table, name: string): (r: Result<seq<Option<real>>>)
    requires WellFormed(t)
    ensures r.Err? <==> (name !in t.names || !t.cols[Find(t.names, name).value].Num?)
    ensures r.Err? ==> r.error == (if name !in t.names then MissingColumn(name) else NotNumeric(name))
    ensures r.Ok? ==> |r.value| == Rows(t) && Num(r.value) == t.cols[Find(t.names, name).value]
  {
    match Find(t.names, name)
    case None => Err(MissingColumn(name))
    case Some(j) =>
      match t.cols[j]
      case Num(v) => Ok(v)
      case Str(_) => Err(NotNumeric(name))
  }

  /** `df[name]` on a label the table has. */
  function Col(t: Table, name: string): (c: Column)
    requires WellFormed(t) && name in t.names
    ensures c.Length() == Rows(t) && c in t.cols
  {
    t.cols[Find(t.names, name).value]
  }

  /** Whether the column holds a string: a text column with at least one
      present cell. Comparing it with a number raises, since pandas skips
      the missing cells of a text column and compares every other one. */
  predicate HasText(c: Column)
    ensures HasText(c) <==> c.Str? && CountMissing(c.texts) < c.Length()
  {
    c.Str? && (CountMissingAll(c.texts); exists i :: 0 <= i < |c.texts| && c.texts[i].Some?)
  }

  /** `df[name]` as cells, whatever the column's kind. */
  function CellColumn(t: Table, name: string): (r: Result<seq<Option<Cell>>>)
    requires WellFormed(t)
    ensures r.Err? <==> name !in t.names
    ensures r.Err? ==> r.error == MissingColumn(name)
    ensures r.Ok? ==> |r.value| == Rows(t) && r.value == t.cols[Find(t.names, name).value].Cells()
  {
    match Find(t.names, name)
    case None => Err(MissingColumn(name))
    case Some(j) => Ok(t.cols[j].Cells())
  }

  /** The table with the column at position `j` replaced. */
  function SetColumn(t: Table, j: nat, c: Column): (r: Table)
    requires WellFormed(t) && j < |t.cols| && c.Length() == Rows(t)
    ensures WellFormed(r) && Rows(r) == Rows(t)
    ensures r.names == t.names && |r.cols| == |t.cols| && r.cols[j] == c
    ensures forall k :: 0 <= k < |t.cols| && k != j ==> r.cols[k] == t.cols[k]
  {
    Table(t.names, t.cols[j := c])
  }

  /** Number of missing cells (`isnull().sum()`). */
  function CountMissing<T>(v: seq<Option<T>>): (n: nat)
    ensures n <= |v|
    ensures n == 0 <==> forall i :: 0 <= i < |v| ==> v[i].Some?
  {
    if |v| == 0 then 0
    else CountMissing(v[..|v| - 1]) + (if v[|v| - 1].None? then 1 else 0)
  }

  /** No cell of the column is present. */
  predicate AllMissing<T>(v: seq<Option<T>>) {
    forall i :: 0 <= i < |v| ==> v[i].None?
  }

  lemma AllMissingSnoc<T>(init: seq<Option<T>>, last: Option<T>)
    ensures AllMissing(init + [last]) <==> AllMissing(init) && last.None?
  {
    if AllMissing(init) && last.None? {
      assert forall i :: 0 <= i < |init| ==> (init + [last])[i] == init[i];
    }
    if AllMissing(init + [last]) {
      assert (init + [last])[|init|] == last;
      assert forall i :: 0 <= i < |init| ==> (init + [last])[i] == init[i];
    }
  }

  /** Every cell is counted exactly when every cell is missing. */
  lemma {:induction false} CountMissingAll<T>(v: seq<Option<T>>)
    ensures CountMissing(v) == |v| <==> AllMissing(v)
    decreases |v|
  {
    if |v| > 0 {
      var init := v[..|v| - 1];
      CountMissingAll(init);
      assert v == init + [v[|v| - 1]];
      AllMissingSnoc(init, v[|v| - 1]);
    }
  }

  /** `r` holds each value exactly as often as `v` holds it present. */
  ghost predicate PresentCounts(r: seq<real>, v: seq<Option<real>>) {
    forall x :: multiset(r)[x] == multiset(v)[Some(x)]
  }

  /** The present values, in order (what `dropna()` keeps): each value as
      often as the column holds it. */
  function Present(v: seq<Option<real>>): (r: seq<real>)
    ensures |r| + CountMissing(v) == |v|
    ensures forall x :: x in r <==> Some(x) in v
    ensures PresentCounts(r, v)
    ensures r == [] <==> AllMissing(v)
  {
    if |v| == 0 then []
    else
      var init, last := v[..|v| - 1], v[|v| - 1];
      var r := Present(init);
      assert v == init + [last];
      PresentStep(init, last, r);
      AllMissingSnoc(init, last);
      if last.Some? then r + [last.value] else r
  }

  /** One more entry adds one copy of its value when it is present. */
  lemma PresentStep(init: seq<Option<real>>, last: Option<real>, r: seq<real>)
    requires PresentCounts(r, init)
    ensures var res := if last.Some? then r + [last.value] else r;
      PresentCounts(res, init + [last]) && forall x :: x in res <==> Some(x) in init + [last]
  {
    var res := if last.Some? then r + [last.value] else r;
    assert multiset(init + [last]) == multiset(init) + multiset{last};
    if last.Some? {
      assert multiset(res) == multiset(r) + multiset{last.value};
    }
    forall x ensures x in res <==> Some(x) in init + [last] {
      assert x in res <==> multiset(res)[x] > 0;
      assert Some(x) in init + [last] <==> multiset(init + [last])[Some(x)] > 0;
    }
  }
}
