/** `limpiar_categoricas` (data_cleaning.py:440-470), `str.strip().str.title()`
    on chosen text columns, and `clasificar_estado_cliente`
    (data_cleaning.py:426-437). */
module Categorical {
  import opened Wrappers
  import opened Text
  import opened Frames

  /** `str.title()` on ASCII, continuing after a character that was a letter
      (`afterLetter`) or not. */
  function TitleFrom(s: string, afterLetter: bool): (r: string)
    ensures |r| == |s|
  {
    if s == [] then []
    else
      var c := if !IsLetter(s[0]) then s[0] else if afterLetter then LowerChar(s[0]) else UpperChar(s[0]);
      [c] + TitleFrom(s[1..], IsLetter(s[0]))
  }

  /** `str.title()` on ASCII: a letter is upper case when it starts a run of
      letters and lower case inside one; other characters are kept. */
  function Title(s: string): (r: string)
    ensures |r| == |s|
  {
    TitleFrom(s, false)
  }

  /** The character `Title` puts at position `i`, stated without recursion. */
  function TitleCharAt(s: string, i: nat): char
    requires i < |s|
  {
    if !IsLetter(s[i]) then s[i]
    else if i > 0 && IsLetter(s[i - 1]) then LowerChar(s[i])
    else UpperChar(s[i])
  }

  lemma {:induction false} TitleFromAt(s: string, afterLetter: bool, i: nat)
    requires i < |s|
    ensures TitleFrom(s, afterLetter)[i] ==
      if !IsLetter(s[i]) then s[i]
      else if (if i == 0 then afterLetter else IsLetter(s[i - 1])) then LowerChar(s[i])
      else UpperChar(s[i])
    decreases i
  {
    if i > 0 {
      TitleFromAt(s[1..], IsLetter(s[0]), i - 1);
    }
  }

  /** Each character of `Title(s)` is the one `TitleCharAt` describes. */
  lemma TitleAt(s: string)
    ensures forall i :: 0 <= i < |s| ==> Title(s)[i] == TitleCharAt(s, i)
  {
    forall i | 0 <= i < |s| ensures Title(s)[i] == TitleCharAt(s, i) {
      TitleFromAt(s, false, i);
    }
  }

  /** Title casing keeps which positions hold letters, so applying it twice
      is applying it once. */
  lemma TitleIdempotent(s: string)
    ensures Title(Title(s)) == Title(s)
  {
    var t := Title(s);
    TitleAt(s);
    TitleAt(t);
    assert forall i :: 0 <= i < |s| ==> IsLetter(t[i]) == IsLetter(s[i]);
    forall i | 0 <= i < |s| ensures Title(t)[i] == t[i] {
    }
  }

  /** One category value after `.str.strip().str.title()`: no whitespace is
      left at either end, since title casing changes only letters. */
  function CleanCategory(s: string): (r: string)
    ensures |r| <= |s|
    ensures r == [] || (!IsSpace(r[0]) && !IsSpace(r[|r| - 1]))
  {
    var u := Strip(s, IsSpace);
    TitleEnds(u);
    Title(u)
  }

  /** Title casing keeps a non-space character at either end non-space. */
  lemma TitleEnds(u: string)
    requires u == [] || (!IsSpace(u[0]) && !IsSpace(u[|u| - 1]))
    ensures var t := Title(u); t == [] || (!IsSpace(t[0]) && !IsSpace(t[|t| - 1]))
  {
    var t := Title(u);
    if t != [] {
      TitleAt(u);
      assert t[0] == TitleCharAt(u, 0) && t[|t| - 1] == TitleCharAt(u, |u| - 1);
    }
  }

  /** Cleaning a cleaned value changes nothing: stripping finds nothing to
      remove, and title casing is idempotent. */
  lemma CleanCategoryIdempotent(s: string)
    ensures CleanCategory(CleanCategory(s)) == CleanCategory(s)
  {
    StripKeeps(CleanCategory(s), IsSpace);
    TitleIdempotent(Strip(s, IsSpace));
  }

  /** A text column after cleaning; missing values stay missing. */
  function CleanTexts(v: seq<Option<string>>): (r: seq<Option<string>>)
    ensures |r| == |v|
    ensures forall i :: 0 <= i < |v| ==> r[i].None? == v[i].None?
  {
    seq(|v|, i requires 0 <= i < |v| => if v[i].Some? then Some(CleanCategory(v[i].value)) else None)
  }

  /** The listed column is absent or is not a text column. */
  predicate Unfit(t: Table, name: string)
    requires WellFormed(t)
  {
    name !in t.names || !t.cols[Find(t.names, name).value].Str?
  }

  /** The error `df[name].str` raises for an unfit column. */
  function UnfitError(t: Table, name: string): Error
    requires WellFormed(t)
  {
    if name !in t.names then MissingColumn(name) else NotText(name)
  }

  /** Column `j` is a text column that some label in `names` selects. */
  predicate Chosen(t: Table, names: seq<string>, j: nat)
    requires j < |t.names| && j < |t.cols|
  {
    t.names[j] in names && Find(t.names, t.names[j]) == Some(j) && t.cols[j].Str?
  }

  /** `cur` is `t` with exactly the columns chosen by `names` cleaned. */
  predicate CleanedFor(t: Table, cur: Table, names: seq<string>)
    requires WellFormed(t)
  {
    && WellFormed(cur) && cur.names == t.names && |cur.cols| == |t.cols|
    && forall j :: 0 <= j < |t.cols| ==>
         cur.cols[j] == (if Chosen(t, names, j) then Str(CleanTexts(t.cols[j].texts)) else t.cols[j])
  }

  lemma CleanStep(t: Table, cur: Table, names: seq<string>, name: string, j: nat)
    requires WellFormed(t) && CleanedFor(t, cur, names)
    requires Find(t.names, name) == Some(j) && t.cols[j].Str?
    ensures CleanedFor(t, SetColumn(cur, j, Str(CleanTexts(t.cols[j].texts))), names + [name])
  {
    var next := SetColumn(cur, j, Str(CleanTexts(t.cols[j].texts)));
    forall k | 0 <= k < |t.cols|
      ensures next.cols[k] == (if Chosen(t, names + [name], k) then Str(CleanTexts(t.cols[k].texts)) else t.cols[k])
    {
      assert t.names[k] in names + [name] <==> t.names[k] in names || t.names[k] == name;
    }
  }

  /** data_cleaning.py:467-468 on a copy of the table: each listed column in
      turn is cleaned. A label that is absent, or names a numeric column
      (which has no `.str`), stops the loop with that error. */
  method CleanCategoricals(t: Table, columns: seq<string>) returns (r: Result<Table>)
    requires WellFormed(t)
    ensures r.Err? <==> exists k :: 0 <= k < |columns| && Unfit(t, columns[k])
    ensures r.Err? ==>
      exists k :: && 0 <= k < |columns| && Unfit(t, columns[k]) && r.error == UnfitError(t, columns[k])
                  && forall l :: 0 <= l < k ==> !Unfit(t, columns[l])
    ensures r.Ok? ==> CleanedFor(t, r.value, columns)
  {
    var cur := t;
    for k := 0 to |columns|
      invariant CleanedFor(t, cur, columns[..k])
      invariant forall l :: 0 <= l < k ==> !Unfit(t, columns[l])
    {
      var name := columns[k];
      var j := Find(t.names, name);
      if j.None? || !t.cols[j.value].Str? {
        return Err(UnfitError(t, name));
      }
      CleanStep(t, cur, columns[..k], name, j.value);
      cur := SetColumn(cur, j.value, Str(CleanTexts(t.cols[j.value].texts)));
      assert columns[..k + 1] == columns[..k] + [name];
    }
    assert columns[..|columns|] == columns;
    return Ok(cur);
  }

  /** `clasificar_estado_cliente`: no cancellation year means the customer
      is active. */
  function CustomerStatus(cancellationYear: Option<real>): (status: string)
    ensures status == "Active" <==> cancellationYear.None?
    ensures status == "Cancelled" <==> cancellationYear.Some?
  {
    if cancellationYear.None? then "Active" else "Cancelled"
  }
}
