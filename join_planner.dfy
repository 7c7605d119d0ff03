/** The planning half of `lectura_ficheros` (data_cleaning.py:50-89): find a
    column shared by the two tables, measure how many rows of each side find
    their key among the other side's keys, and choose the kind of merge. */
module JoinPlanner {
  import opened Wrappers
  import opened Frames

  datatype JoinType = Inner | Left | Right | Outer

  /** Every key of `xs` occurs among `ys`. A missing key (`None`) counts as
      found when `ys` has a missing key too, as `Series.isin` treats NaN. */
  predicate AllFound(xs: seq<Option<Cell>>, ys: seq<Option<Cell>>) {
    forall i :: 0 <= i < |xs| ==> xs[i] in ys
  }

  /** Number of positions of `xs` whose key occurs in `ys` (`isin(...).sum()`). */
  function CountFound(xs: seq<Option<Cell>>, ys: seq<Option<Cell>>): (n: nat)
    ensures n <= |xs|
    ensures n == |xs| <==> AllFound(xs, ys)
    ensures n == 0 <==> forall i :: 0 <= i < |xs| ==> xs[i] !in ys
  {
    if |xs| == 0 then 0
    else
      var prefix := xs[..|xs| - 1];
      assert forall i :: 0 <= i < |prefix| ==> prefix[i] == xs[i];
      CountFound(prefix, ys) + (if xs[|xs| - 1] in ys then 1 else 0)
  }

  /** `xs.isin(ys).mean() * 100`, exactly. The mean of an empty column is
      NaN, which is `None` here. */
  function MatchPercent(xs: seq<Option<Cell>>, ys: seq<Option<Cell>>): (p: Option<real>)
    ensures p.None? <==> xs == []
    ensures p.Some? ==> 0.0 <= p.value <= 100.0
    ensures p.Some? ==> (p.value == 100.0 <==> AllFound(xs, ys))
    ensures p.Some? ==> (p.value == 0.0 <==> forall i :: 0 <= i < |xs| ==> xs[i] !in ys)
  {
    if xs == [] then None
    else
      var n, len := CountFound(xs, ys) as real, |xs| as real;
      var q := 100.0 * n / len;
      assert q * len == 100.0 * n;
      PercentRange(n, len, q);
      Some(q)
  }

  /** A percentage `q` of a share `n` out of `len` lies in [0, 100] and
      hits either bound only when the share does. */
  lemma PercentRange(n: real, len: real, q: real)
    requires 0.0 <= n <= len && len > 0.0 && q * len == 100.0 * n
    ensures 0.0 <= q <= 100.0
    ensures q == 100.0 <==> n == len
    ensures q == 0.0 <==> n == 0.0
  {
    assert (q - 100.0) * len == 100.0 * (n - len);
    SignOfProduct(q - 100.0, len);
    SignOfProduct(q, len);
  }

  lemma SignOfProduct(a: real, b: real)
    requires b > 0.0
    ensures a * b > 0.0 <==> a > 0.0
    ensures a * b == 0.0 <==> a == 0.0
  {
  }

  /** `p == 100` and `p < 100`, where a comparison with NaN is false. */
  predicate IsFull(p: Option<real>) { p.Some? && p.value == 100.0 }

  predicate IsPartial(p: Option<real>) { p.Some? && p.value < 100.0 }

  /** The four-branch table of data_cleaning.py:75-89. */
  function ChooseJoin(match1: Option<real>, match2: Option<real>): (j: JoinType)
    ensures j == Inner <==> IsFull(match1) && IsFull(match2)
    ensures j == Left ==> IsFull(match2) && !IsFull(match1)
    ensures j == Right ==> IsFull(match1) && !IsFull(match2)
    ensures match1.None? || match2.None? ==> j == Outer
  {
    if IsFull(match1) && IsFull(match2) then Inner
    else if IsPartial(match1) && IsFull(match2) then Left
    else if IsFull(match1) && IsPartial(match2) then Right
    else Outer
  }

  /** In terms of the keys themselves: an inner join exactly when every key
      on each side is found on the other, a left join when every key of the
      second table is found in the first but not the other way round, a
      right join in the mirror case, and an outer join otherwise (also when
      either table has no rows). */
  lemma ChooseJoinMeaning(k1: seq<Option<Cell>>, k2: seq<Option<Cell>>)
    ensures var j := ChooseJoin(MatchPercent(k1, k2), MatchPercent(k2, k1));
      && (j == Inner <==> k1 != [] && k2 != [] && AllFound(k1, k2) && AllFound(k2, k1))
      && (j == Left <==> k1 != [] && k2 != [] && !AllFound(k1, k2) && AllFound(k2, k1))
      && (j == Right <==> k1 != [] && k2 != [] && AllFound(k1, k2) && !AllFound(k2, k1))
      && (j == Outer <==> k1 == [] || k2 == [] || (!AllFound(k1, k2) && !AllFound(k2, k1)))
  {
    var p1, p2 := MatchPercent(k1, k2), MatchPercent(k2, k1);
    assert p1.Some? ==> (IsPartial(p1) <==> !IsFull(p1));
    assert p2.Some? ==> (IsPartial(p2) <==> !IsFull(p2));
  }

  /** Every pair of percentages gets exactly one join type, and the choice
      is symmetric: swapping the tables swaps left and right. */
  lemma ChooseJoinSwap(match1: Option<real>, match2: Option<real>)
    ensures ChooseJoin(match2, match1) ==
      match ChooseJoin(match1, match2)
      case Inner => Inner
      case Left => Right
      case Right => Left
      case Outer => Outer
  {
  }

  /** The names both tables share (`set(df1.columns) & set(df2.columns)`). */
  function CommonNames(names1: seq<string>, names2: seq<string>): (common: set<string>)
    ensures forall n :: n in common <==> n in names1 && n in names2
  {
    set n | n in names1 && n in names2
  }

  /** data_cleaning.py:50-60: fail when no name is shared, otherwise take some
      shared name. Set iteration order is unspecified, so any shared name may
      be the key. */
  method DetectKey(names1: seq<string>, names2: seq<string>) returns (r: Result<string>)
    ensures r.Err? <==> forall n :: n in names1 ==> n !in names2
    ensures r.Err? ==> r.error == NoCommonKey
    ensures r.Ok? ==> r.value in names1 && r.value in names2
  {
    var common := CommonNames(names1, names2);
    if common == {} {
      return Err(NoCommonKey);
    }
    var key :| key in common;
    return Ok(key);
  }

  /** What `lectura_ficheros` decides before merging. */
  datatype JoinPlan = JoinPlan(key: string, match1: Option<real>, match2: Option<real>, how: JoinType)

  /** Key detection, both correspondence percentages and the join type. */
  method PlanJoin(t1: Table, t2: Table) returns (r: Result<JoinPlan>)
    requires WellFormed(t1) && WellFormed(t2)
    ensures r.Err? <==> forall n :: n in t1.names ==> n !in t2.names
    ensures r.Err? ==> r.error == NoCommonKey
    ensures r.Ok? ==> r.value.key in t1.names && r.value.key in t2.names
    ensures r.Ok? ==>
      var k1 := t1.cols[Find(t1.names, r.value.key).value].Cells();
      var k2 := t2.cols[Find(t2.names, r.value.key).value].Cells();
      && r.value.match1 == MatchPercent(k1, k2)
      && r.value.match2 == MatchPercent(k2, k1)
      && r.value.how == ChooseJoin(r.value.match1, r.value.match2)
  {
    var found := DetectKey(t1.names, t2.names);
    if found.Err? {
      return Err(found.error);
    }
    var key := found.value;
    var c1 := CellColumn(t1, key);
    var c2 := CellColumn(t2, key);
    var k1, k2 := c1.value, c2.value;
    var match1 := MatchPercent(k1, k2);
    var match2 := MatchPercent(k2, k1);
    r := Ok(JoinPlan(key, match1, match2, ChooseJoin(match1, match2)));
  }
}
