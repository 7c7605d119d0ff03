/** `revisar_incoherencias_vuelos` (data_cleaning.py:473-500): four counts of
    rows whose flight figures contradict each other. A comparison that
    involves a missing value is false, as it is for NaN. */
module Incoherence {
  import opened Wrappers
  import opened Text
  import opened Frames

  /** The four checks, in the order the report lists them. */
  datatype FlightCheck = BookedAboveTotal | CompanionsAboveTotal | DistanceWithoutFlights | PointsWithoutFlights

  /** The report key of each check (data_cleaning.py:482-492). */
  function Label(c: FlightCheck): string {
    match c
    case BookedAboveTotal => "booked > total"
    case CompanionsAboveTotal => "companions > total"
    case DistanceWithoutFlights => "distance > 0 pero total_flights = 0"
    case PointsWithoutFlights => "points_accumulated > 0 pero total_flights = 0"
  }

  /** `a > b` on two cells: numbers compare as numbers and strings by code
      point, as Python does, and a comparison with a missing cell is false.
      A number never meets a string here: the column comparison raises first
      (`CompareRaises`, `HasText`). */
  predicate Greater(a: Option<Cell>, b: Option<Cell>)
    ensures Greater(a, b) ==> a.Some? && b.Some? && a.value.NumCell? == b.value.NumCell?
  {
    && a.Some? && b.Some?
    && match a.value
       case NumCell(x) => b.value.NumCell? && x > b.value.x
       case TextCell(s) => b.value.TextCell? && TextLess(b.value.s, s)
  }

  /** `a == 0`: only the number zero; a string or a missing cell is never
      equal to it, and the comparison never raises. */
  predicate IsZero(a: Option<Cell>)
    ensures IsZero(a) ==> !Greater(a, Some(NumCell(0.0))) && !Greater(Some(NumCell(0.0)), a)
    ensures IsZero(a) ==> a.Some? && a.value.NumCell?
  {
    a == Some(NumCell(0.0))
  }

  /** Whether `left > right` on two columns of one table raises TypeError.
      Columns of one kind compare cell by cell. A text column on the left is
      compared as objects, skipping the rows where either cell is missing, so
      it raises only on a row where a string meets a number. A numeric column
      on the left is compared by NumPy, which raises once the right holds any
      string. */
  predicate CompareRaises(left: Column, right: Column)
    requires left.Length() == right.Length()
    ensures left.Str? == right.Str? ==> !CompareRaises(left, right)
    ensures CompareRaises(left, right) ==> HasText(left) || HasText(right)
  {
    match left
    case Str(x) => right.Num? && exists i :: 0 <= i < |x| && x[i].Some? && right.nums[i].Some?
    case Num(_) => HasText(right)
  }

  /** The five columns the checks read. */
  datatype FlightColumns = FlightColumns(
    booked: Column, total: Column, companions: Column, distance: Column, points: Column)
  {
    predicate Aligned() {
      && total.Length() == booked.Length() && companions.Length() == booked.Length()
      && distance.Length() == booked.Length() && points.Length() == booked.Length()
    }

    function Rows(): nat { booked.Length() }
  }

  /** Whether row `i` fails check `c`. */
  predicate Flagged(c: FlightCheck, f: FlightColumns, i: nat)
    requires f.Aligned() && i < f.Rows()
    ensures Flagged(c, f, i) ==> f.total.At(i).Some?
  {
    var total := f.total.At(i);
    match c
    case BookedAboveTotal => Greater(f.booked.At(i), total)
    case CompanionsAboveTotal => Greater(f.companions.At(i), total)
    case DistanceWithoutFlights => IsZero(total) && Greater(f.distance.At(i), Some(NumCell(0.0)))
    case PointsWithoutFlights => IsZero(total) && Greater(f.points.At(i), Some(NumCell(0.0)))
  }

  /** Number of rows below `n` that fail check `c`. */
  function CountFlagged(c: FlightCheck, f: FlightColumns, n: nat): (count: nat)
    requires f.Aligned() && n <= f.Rows()
    ensures count <= n
    ensures count == 0 <==> forall i :: 0 <= i < n ==> !Flagged(c, f, i)
    ensures count == n <==> forall i :: 0 <= i < n ==> Flagged(c, f, i)
  {
    if n == 0 then 0 else CountFlagged(c, f, n - 1) + (if Flagged(c, f, n - 1) then 1 else 0)
  }

  /** One `(...).sum()` of data_cleaning.py:482-494: the number of rows that
      fail the check, at most the number of rows. */
  method CountIncoherent(c: FlightCheck, f: FlightColumns) returns (count: nat)
    requires f.Aligned()
    ensures count == CountFlagged(c, f, f.Rows())
    ensures count <= f.Rows()
  {
    count := 0;
    for i := 0 to f.Rows()
      invariant count == CountFlagged(c, f, i)
    {
      assert CountFlagged(c, f, i + 1) == CountFlagged(c, f, i) + if Flagged(c, f, i) then 1 else 0;
      if Flagged(c, f, i) {
        count := count + 1;
      }
    }
  }

  /** A step of data_cleaning.py:482-492 that can raise: a `df[...]` lookup,
      a comparison of two columns, or a comparison of a column with 0. */
  datatype Read = Lookup(name: string) | Compare(left: string, right: string) | Positive(name: string)

  /** The steps in the order Python evaluates them: both operands of a
      comparison before the comparison. `total_flights` is looked up again
      on later lines, which cannot fail once line 482 has read it, and
      `total_flights == 0` never raises. */
  const Reads: seq<Read> := [
    Lookup("flights_booked"), Lookup("total_flights"), Compare("flights_booked", "total_flights"),
    Lookup("flights_with_companions"), Compare("flights_with_companions", "total_flights"),
    Lookup("distance"), Positive("distance"),
    Lookup("points_accumulated"), Positive("points_accumulated")]

  /** The error step `rd` raises on `t`, if any. */
  function ReadError(t: Table, rd: Read): Option<Error>
    requires WellFormed(t)
  {
    match rd
    case Lookup(n) => if n in t.names then None else Some(MissingColumn(n))
    case Compare(a, b) =>
      if a in t.names && b in t.names && CompareRaises(Col(t, a), Col(t, b))
      then Some(NotComparable(a, b)) else None
    case Positive(n) => if n in t.names && HasText(Col(t, n)) then Some(NotNumeric(n)) else None
  }

  /** Position of the first step at or after `from` that raises on `t`,
      or `|Reads|` when none does. */
  function FirstFailing(t: Table, from: nat): (k: nat)
    requires WellFormed(t) && from <= |Reads|
    ensures from <= k <= |Reads|
    ensures forall m :: from <= m < k ==> ReadError(t, Reads[m]).None?
    ensures k < |Reads| ==> ReadError(t, Reads[k]).Some?
    decreases |Reads| - from
  {
    if from == |Reads| then from
    else if ReadError(t, Reads[from]).Some? then from
    else FirstFailing(t, from + 1)
  }

  /** The five columns, read and compared as the script does. */
  function FlightInputs(t: Table): (r: Result<FlightColumns>)
    requires WellFormed(t)
    ensures r.Ok? ==>
      && "flights_booked" in t.names && "total_flights" in t.names
      && "flights_with_companions" in t.names && "distance" in t.names
      && "points_accumulated" in t.names
      && r.value == FlightColumns(Col(t, "flights_booked"), Col(t, "total_flights"),
                                  Col(t, "flights_with_companions"), Col(t, "distance"),
                                  Col(t, "points_accumulated"))
      && r.value.Aligned() && r.value.Rows() == Rows(t)
  {
    if "flights_booked" !in t.names then Err(MissingColumn("flights_booked"))
    else if "total_flights" !in t.names then Err(MissingColumn("total_flights"))
    else
      var booked, total := Col(t, "flights_booked"), Col(t, "total_flights");
      if CompareRaises(booked, total) then Err(NotComparable("flights_booked", "total_flights"))
      else if "flights_with_companions" !in t.names then Err(MissingColumn("flights_with_companions"))
      else
        var companions := Col(t, "flights_with_companions");
        if CompareRaises(companions, total) then Err(NotComparable("flights_with_companions", "total_flights"))
        else if "distance" !in t.names then Err(MissingColumn("distance"))
        else
          var distance := Col(t, "distance");
          if HasText(distance) then Err(NotNumeric("distance"))
          else if "points_accumulated" !in t.names then Err(MissingColumn("points_accumulated"))
          else
            var points := Col(t, "points_accumulated");
            if HasText(points) then Err(NotNumeric("points_accumulated"))
            else Ok(FlightColumns(booked, total, companions, distance, points))
  }

  /** `FlightInputs` fails with the error of step `j`, the first step that raises. */
  predicate FailsAt(t: Table, j: nat)
    requires WellFormed(t) && j < |Reads|
  {
    FirstFailing(t, 0) == j && ReadError(t, Reads[j]).Some? && FlightInputs(t) == Err(ReadError(t, Reads[j]).value)
  }

  /** Line 482 reads both labels, then compares. */
  lemma BookedTotalFailure(t: Table)
    requires WellFormed(t)
    requires "flights_booked" !in t.names || "total_flights" !in t.names
      || CompareRaises(Col(t, "flights_booked"), Col(t, "total_flights"))
    ensures FailsAt(t, 0) || FailsAt(t, 1) || FailsAt(t, 2)
  {
    if "flights_booked" !in t.names {
      assert FirstFailing(t, 0) == 0;
    } else if "total_flights" !in t.names {
      assert FirstFailing(t, 0) == FirstFailing(t, 1) == 1;
    } else {
      assert FirstFailing(t, 0) == FirstFailing(t, 1) == FirstFailing(t, 2) == 2;
    }
  }

  /** The first three steps pass when line 482 does. */
  lemma BookedTotalPass(t: Table)
    requires WellFormed(t) && "flights_booked" in t.names && "total_flights" in t.names
    requires !CompareRaises(Col(t, "flights_booked"), Col(t, "total_flights"))
    ensures FirstFailing(t, 0) == FirstFailing(t, 3)
  {
    assert FirstFailing(t, 0) == FirstFailing(t, 1) == FirstFailing(t, 2) == FirstFailing(t, 3);
  }

  /** Line 484 reads `flights_with_companions`, then compares. */
  lemma CompanionsTotalFailure(t: Table)
    requires WellFormed(t) && "flights_booked" in t.names && "total_flights" in t.names
    requires !CompareRaises(Col(t, "flights_booked"), Col(t, "total_flights"))
    requires "flights_with_companions" !in t.names
      || CompareRaises(Col(t, "flights_with_companions"), Col(t, "total_flights"))
    ensures FailsAt(t, 3) || FailsAt(t, 4)
  {
    BookedTotalPass(t);
    if "flights_with_companions" !in t.names {
      assert FirstFailing(t, 3) == 3;
    } else {
      assert FirstFailing(t, 3) == FirstFailing(t, 4) == 4;
    }
  }

  /** Steps 3 to 6 pass when lines 484 and 488 do. */
  lemma CompanionsDistancePass(t: Table)
    requires WellFormed(t) && "total_flights" in t.names
    requires "flights_with_companions" in t.names && "distance" in t.names
    requires !CompareRaises(Col(t, "flights_with_companions"), Col(t, "total_flights"))
    requires !HasText(Col(t, "distance"))
    ensures FirstFailing(t, 3) == FirstFailing(t, 7)
  {
    assert FirstFailing(t, 3) == FirstFailing(t, 4) == FirstFailing(t, 5) == FirstFailing(t, 6) == FirstFailing(t, 7);
  }

  /** Line 488 reads `distance`, then compares it with 0. */
  lemma DistanceFailure(t: Table)
    requires WellFormed(t) && "flights_booked" in t.names && "total_flights" in t.names
    requires !CompareRaises(Col(t, "flights_booked"), Col(t, "total_flights"))
    requires "flights_with_companions" in t.names
    requires !CompareRaises(Col(t, "flights_with_companions"), Col(t, "total_flights"))
    requires "distance" !in t.names || HasText(Col(t, "distance"))
    ensures FailsAt(t, 5) || FailsAt(t, 6)
  {
    BookedTotalPass(t);
    assert FirstFailing(t, 3) == FirstFailing(t, 4) == FirstFailing(t, 5);
    if "distance" !in t.names {
      assert FirstFailing(t, 5) == 5;
    } else {
      assert FirstFailing(t, 5) == FirstFailing(t, 6) == 6;
    }
  }

  /** Line 492 reads `points_accumulated`, then compares it with 0; when it
      passes, no step raises. */
  lemma PointsStep(t: Table)
    requires WellFormed(t) && "flights_booked" in t.names && "total_flights" in t.names
    requires !CompareRaises(Col(t, "flights_booked"), Col(t, "total_flights"))
    requires "flights_with_companions" in t.names
    requires !CompareRaises(Col(t, "flights_with_companions"), Col(t, "total_flights"))
    requires "distance" in t.names && !HasText(Col(t, "distance"))
    ensures FlightInputs(t).Err? ==> FailsAt(t, 7) || FailsAt(t, 8)
    ensures FlightInputs(t).Ok? ==> FirstFailing(t, 0) == |Reads|
  {
    BookedTotalPass(t);
    CompanionsDistancePass(t);
    if "points_accumulated" !in t.names {
      assert FirstFailing(t, 7) == 7;
    } else if HasText(Col(t, "points_accumulated")) {
      assert FirstFailing(t, 7) == FirstFailing(t, 8) == 8;
    } else {
      assert FirstFailing(t, 7) == FirstFailing(t, 8) == FirstFailing(t, 9) == 9;
    }
  }

  /** The review fails exactly when one of its steps raises, and with the
      error of the first step that does. */
  lemma FlightInputsFirstFailure(t: Table)
    requires WellFormed(t)
    ensures FlightInputs(t).Err? <==> FirstFailing(t, 0) < |Reads|
    ensures FlightInputs(t).Err? ==> FlightInputs(t).error == ReadError(t, Reads[FirstFailing(t, 0)]).value
  {
    var n := t.names;
    if "flights_booked" !in n || "total_flights" !in n
      || CompareRaises(Col(t, "flights_booked"), Col(t, "total_flights")) {
      BookedTotalFailure(t);
    } else if "flights_with_companions" !in n
      || CompareRaises(Col(t, "flights_with_companions"), Col(t, "total_flights")) {
      CompanionsTotalFailure(t);
    } else if "distance" !in n || HasText(Col(t, "distance")) {
      DistanceFailure(t);
    } else {
      PointsStep(t);
    }
  }

  /** A text `flights_booked` beside an absent `total_flights` gives the
      KeyError of the absent label, not a comparison error. */
  lemma MissingTotalBeforeTextBooked()
    ensures FlightInputs(Table(["flights_booked"], [Str([Some("x")])])) == Err(MissingColumn("total_flights"))
  {
    var t := Table(["flights_booked"], [Str([Some("x")])]);
    assert "flights_booked" in t.names && "total_flights" !in t.names;
  }

  /** Columns of one kind compare without raising: whenever all five labels
      are present, the pairs of lines 482 and 484 hold one kind each, and
      `distance` and `points_accumulated` are numeric, the review reads its
      columns, text columns included. */
  lemma SameKindsRead(t: Table)
    requires WellFormed(t)
    requires "flights_booked" in t.names && "total_flights" in t.names
    requires "flights_with_companions" in t.names && "distance" in t.names
    requires "points_accumulated" in t.names
    requires Col(t, "flights_booked").Str? == Col(t, "total_flights").Str?
    requires Col(t, "flights_with_companions").Str? == Col(t, "total_flights").Str?
    requires Col(t, "distance").Num? && Col(t, "points_accumulated").Num?
    ensures FlightInputs(t).Ok?
  {
  }

  /** On two cells `Greater` is a strict order: never both ways and never a
      cell above itself; two different strings compare one way or the other. */
  lemma GreaterStrict(a: Option<Cell>, b: Option<Cell>)
    ensures Greater(a, b) ==> !Greater(b, a)
    ensures !Greater(a, a)
    ensures a.Some? && b.Some? && a.value.TextCell? && b.value.TextCell? && a != b ==>
      Greater(a, b) || Greater(b, a)
  {
    if a.Some? && a.value.TextCell? {
      TextLessTrichotomy(a.value.s, a.value.s);
      if b.Some? && b.value.TextCell? {
        TextLessTrichotomy(a.value.s, b.value.s);
      }
    }
  }

  /** On text cells, lines 482 and 484 count a row exactly when Python's
      string comparison puts its string above the `total_flights` one. */
  lemma TextRowsCompared(c: FlightCheck, f: FlightColumns, i: nat, s: string, u: string)
    requires f.Aligned() && i < f.Rows() && f.total.At(i) == Some(TextCell(u))
    requires || (c == BookedAboveTotal && f.booked.At(i) == Some(TextCell(s)))
             || (c == CompanionsAboveTotal && f.companions.At(i) == Some(TextCell(s)))
    ensures Flagged(c, f, i) <==> TextLess(u, s)
  {
  }

  /** The four report keys are distinct (their lengths already differ), so
      the report has one entry per check. */
  lemma LabelsDistinct(c: FlightCheck, d: FlightCheck)
    requires c != d
    ensures Label(c) != Label(d)
  {
    assert |Label(BookedAboveTotal)| == 14 && |Label(CompanionsAboveTotal)| == 18;
    assert |Label(DistanceWithoutFlights)| == 35 && |Label(PointsWithoutFlights)| == 45;
  }

  /** `revisar_incoherencias_vuelos(df)`: the table is only read. A step
      that raises ends the review with its error; otherwise the report has an
      entry for each of the four checks, and no other, holding the number of
      rows failing it, which is at most the number of rows. */
  method ReviewFlightIncoherences(t: Table) returns (r: Result<map<FlightCheck, nat>>)
    requires WellFormed(t)
    ensures r.Err? <==> FlightInputs(t).Err?
    ensures r.Err? ==> r.error == FlightInputs(t).error
    ensures r.Ok? ==>
      var f := FlightInputs(t).value;
      forall c: FlightCheck :: c in r.value && r.value[c] == CountFlagged(c, f, f.Rows()) <= Rows(t)
  {
    var inputs := FlightInputs(t);
    if inputs.Err? {
      return Err(inputs.error);
    }
    var f := inputs.value;
    var report: map<FlightCheck, nat> := map[];
    var n := CountIncoherent(BookedAboveTotal, f);
    report := report[BookedAboveTotal := n];
    n := CountIncoherent(CompanionsAboveTotal, f);
    report := report[CompanionsAboveTotal := n];
    n := CountIncoherent(DistanceWithoutFlights, f);
    report := report[DistanceWithoutFlights := n];
    n := CountIncoherent(PointsWithoutFlights, f);
    report := report[PointsWithoutFlights := n];
    forall c: FlightCheck ensures c in report && report[c] == CountFlagged(c, f, f.Rows()) {
      match c
      case BookedAboveTotal =>
      case CompanionsAboveTotal =>
      case DistanceWithoutFlights =>
      case PointsWithoutFlights =>
    }
    return Ok(report);
  }
}
