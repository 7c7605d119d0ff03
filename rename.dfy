/** `renombrar_columnas_semanticas` (data_cleaning.py:164-215): a fixed map of
    three labels to clearer ones, applied in place to a table's labels. */
module SemanticRename {
  import opened Frames

  /** The `rename_map` of data_cleaning.py:199-203. */
  const RenameMap: map<string, string> :=
    map["year" := "flight_year", "month" := "flight_month", "clv" := "customer_lifetime_value"]

  /** The label a single column gets: its new name when it is a key of the
      map, itself otherwise (`rename` ignores absent keys). */
  function Renamed(name: string): (r: string)
    ensures r != name <==> name in RenameMap
    ensures name in RenameMap ==> r == RenameMap[name]
    ensures r !in RenameMap
  {
    if name in RenameMap then RenameMap[name] else name
  }

  /** Renaming twice is renaming once: no new name is itself renamed. */
  lemma RenamedIdempotent(name: string)
    ensures Renamed(Renamed(name)) == Renamed(name)
  {
  }

  /** `df.rename(columns=...)` on the whole label list, position by position. */
  function RenameLabels(names: seq<string>): (r: seq<string>)
    ensures |r| == |names|
    ensures forall i :: 0 <= i < |names| ==> r[i] == Renamed(names[i])
  {
    seq(|names|, i requires 0 <= i < |names| => Renamed(names[i]))
  }

  /** A table whose labels are renamed in place, as pandas does with
      `inplace=True`. */
  class DataFrame {
    var frame: Table

    constructor (t: Table)
      ensures frame == t
    {
      frame := t;
    }

    /** data_cleaning.py:207: only `year`, `month` and `clv` change, to their
        fixed new names; every other label, the number of labels and all
        columns stay as they were. */
    method RenameSemantic()
      modifies this
      ensures frame.cols == old(frame.cols)
      ensures |frame.names| == |old(frame.names)|
      ensures forall i :: 0 <= i < |frame.names| ==>
        if old(frame.names[i]) in RenameMap
        then frame.names[i] == RenameMap[old(frame.names[i])]
        else frame.names[i] == old(frame.names[i])
      ensures WellFormed(old(frame)) ==> WellFormed(frame) && Rows(frame) == Rows(old(frame))
    {
      frame := Table(RenameLabels(frame.names), frame.cols);
    }
  }

  /** The three renames, on the labels the normaliser produces. */
  lemma RenameExample()
    ensures RenameLabels(["loyalty_number", "year", "month", "clv"]) ==
      ["loyalty_number", "flight_year", "flight_month", "customer_lifetime_value"]
  {
  }
}
