/** Building the saved label series from the separate labels file
    (src/data/process_labels.py): find the file, choose its target column,
    check that the labels are binary, and name the result "target". */
module Labels {
  import opened Basics
  import opened Frame

  /** Paths probed, relative to the project root, in this order (the
      external-directory CSV is listed twice). */
  const LabelLocations: seq<string> := [
    "data/external/train_labels.csv",
    "data/external/train_labels.csv",
    "data/raw/train_labels.csv",
    "data/raw/train_labels.csv.gz"
  ]

  /** Conventional target names in the labels file, in priority order. */
  const LabelTargetNames: seq<string> := ["target", "default", "label"]

  /** `present` is the set of these paths that exist. */
  method FindLabelsFile(present: set<string>) returns (r: Option<string>)
    ensures r == FirstPresent(LabelLocations, present)
  {
    r := FirstMatch(LabelLocations, present);
  }

  /** The choice of target column: a column name, none (customer_ID is the
      only column, so the fallback leaves the target unset), or an
      out-of-range `columns[0]` on a table without columns. */
  datatype Selection = Selected(name: string) | NotSelected | NoColumns

  /** The column choice of process_labels.py: a conventional name, else,
      when customer_ID is present among two or more columns, the column at
      index 1 (whatever it holds), else the column at index 0. */
  function TargetColumnOf(columns: seq<string>): (s: Selection)
    ensures s.Selected? ==> s.name in columns
    ensures s == NotSelected <==> columns == ["customer_ID"]
    ensures s == NoColumns <==> columns == []
  {
    var named := FirstPresent(LabelTargetNames, set c | c in columns);
    if named.Some? then Selected(named.value)
    else if "customer_ID" in columns then
      if |columns| > 1 then Selected(columns[1]) else NotSelected
    else if |columns| > 0 then Selected(columns[0])
    else NoColumns
  }

  /** The loop with `break`, then the fallback reassignment. */
  method SelectTargetColumn(columns: seq<string>) returns (s: Selection)
    ensures s == TargetColumnOf(columns)
  {
    var target: Option<string> := None;
    for i := 0 to |LabelTargetNames|
      invariant target.None?
      invariant forall j :: 0 <= j < i ==> LabelTargetNames[j] !in columns
    {
      if LabelTargetNames[i] in columns {
        target := Some(LabelTargetNames[i]);
        break;
      }
    }
    if target.None? {
      if "customer_ID" in columns {
        if |columns| > 1 {
          target := Some(columns[1]);
        }
      } else {
        if |columns| == 0 {
          return NoColumns;
        }
        target := Some(columns[0]);
      }
    }
    if target.None? {
      return NotSelected;
    }
    return Selected(target.value);
  }

  /** The binary check of process_labels.py: every label is 0 or 1. */
  function IsBinary(cells: seq<Value>): (b: bool)
    ensures b <==> forall i :: 0 <= i < |cells| ==> cells[i] == Num(0) || cells[i] == Num(1)
  {
    var u := Distinct(cells);
    assert forall i :: 0 <= i < |cells| ==> cells[i] in u;
    assert forall v :: v in u ==> exists i :: 0 <= i < |cells| && cells[i] == v;
    u <= {Num(0), Num(1)}
  }

  /** How a run stops without saving: no labels file (returns False), no
      target column (returns False), or a labels table without columns
      (the index error of `columns[0]` propagates). */
  datatype Failure = LabelsFileNotFound | NoTargetColumn | NoLabelColumns

  /** A run either fails or saves the label series `y` read from `file`,
      possibly after warning that the labels are not binary. */
  datatype LabelsRun = Failed(reason: Failure) | Saved(file: string, y: Column, nonBinaryWarning: bool)

  /** process_labels, with the existing paths as `present` and the table
      read from the file found as `loaded`. */
  method ProcessLabels(present: set<string>, loaded: Table) returns (run: LabelsRun)
    requires loaded.Valid()
    ensures run == Failed(LabelsFileNotFound) <==> FirstPresent(LabelLocations, present).None?
    ensures run == Failed(NoTargetColumn) <==>
      FirstPresent(LabelLocations, present).Some? && Names(loaded) == ["customer_ID"]
    ensures run == Failed(NoLabelColumns) <==>
      FirstPresent(LabelLocations, present).Some? && loaded.cols == []
    ensures run.Saved? ==>
      var choice := TargetColumnOf(Names(loaded));
      run.file == FirstPresent(LabelLocations, present).value &&
      choice.Selected? && Has(loaded, choice.name) &&
      run.y == Column("target", Get(loaded, choice.name)) &&
      |run.y.cells| == loaded.height &&
      run.nonBinaryWarning == !IsBinary(run.y.cells)
  {
    var file := FindLabelsFile(present);
    if file.None? {
      return Failed(LabelsFileNotFound);
    }
    var choice := SelectTargetColumn(Names(loaded));
    if choice == NoColumns {
      return Failed(NoLabelColumns);
    }
    if choice == NotSelected {
      return Failed(NoTargetColumn);
    }
    var y := Get(loaded, choice.name);
    var warned := !IsBinary(y);
    run := Saved(file.value, Column("target", y), warned);
  }

  // ---------------------------------------------------------------------
  // Properties of the column choice

  /** The first conventional name present is the target, wherever it stands. */
  lemma ConventionalLabelName(columns: seq<string>, k: nat)
    requires k < |LabelTargetNames| && LabelTargetNames[k] in columns
    requires forall j :: 0 <= j < k ==> LabelTargetNames[j] !in columns
    ensures TargetColumnOf(columns) == Selected(LabelTargetNames[k])
  {
  }

  /** Without a conventional name: index 1 when customer_ID is present (and
      there are two columns or more), index 0 when it is absent. */
  lemma FallbackColumn(columns: seq<string>)
    requires forall j :: 0 <= j < |LabelTargetNames| ==> LabelTargetNames[j] !in columns
    ensures "customer_ID" in columns && |columns| > 1 ==> TargetColumnOf(columns) == Selected(columns[1])
    ensures "customer_ID" !in columns && |columns| > 0 ==> TargetColumnOf(columns) == Selected(columns[0])
  {
  }

  /** Index 1 is taken whatever it holds: when customer_ID is the second
      column, the identifier itself becomes the target. */
  lemma IdentifierCanBecomeTarget()
    ensures TargetColumnOf(["flag", "customer_ID"]) == Selected("customer_ID")
  {
  }
}
