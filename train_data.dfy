/** Deciding where the label of the training table lives (an external labels
    file, a column of the table, or nowhere), which column is the record
    identifier, and splitting the table into row-aligned features, labels
    and identifiers (src/data/process_train_data.py). */
module TrainData {
  import opened Basics
  import opened Frame

  /** File names probed, in this order, in the external data directory. */
  const LabelFiles: seq<string> :=
    ["train_labels.csv", "train_labels.parquet", "train_labels.csv.gz", "labels.csv", "labels.parquet"]

  /** Conventional label column names, in priority order. */
  const TargetNames: seq<string> := ["target", "default", "label", "y"]

  /** Name prefixes of the feature groups (delinquency, spend, payment, balance, risk). */
  const FeaturePrefixes: seq<string> := ["D_", "S_", "P_", "B_", "R_"]

  /** Identifier column names, in priority order. */
  const IdNames: seq<string> := ["customer_ID", "id", "customer_id"]

  /** The values a label column may take: 0, 1 and the sentinel -1. */
  const Codes: set<Value> := {Num(0), Num(1), Num(-1)}

  /** `present` is the set of file names that exist in the external directory. */
  method CheckForLabelsFile(present: set<string>) returns (r: Option<string>)
    ensures r == FirstPresent(LabelFiles, present)
  {
    r := FirstMatch(LabelFiles, present);
  }

  /** Outcome of target resolution: the labels file found, an inline column, or nothing. */
  datatype Resolved = External(file: string) | Inline(name: string) | Absent

  /** Python's `str.startswith`. */
  predicate StartsWith(s: string, prefix: string) {
    |prefix| <= |s| && s[..|prefix|] == prefix
  }

  predicate IsFeatureName(name: string) {
    exists i :: 0 <= i < |FeaturePrefixes| && StartsWith(name, FeaturePrefixes[i])
  }

  /** Columns the binary-column heuristic never looks at. */
  predicate Skipped(name: string) {
    IsFeatureName(name) || name in IdNames
  }

  /** The smallest count, in `cells`, of any of `keys`. */
  function MinCount(keys: seq<Value>, cells: seq<Value>): (m: nat)
    requires keys != []
    ensures forall i :: 0 <= i < |keys| ==> m <= Occurrences(cells, keys[i])
    ensures exists v :: v in keys && m == Occurrences(cells, v)
  {
    if |keys| == 1 then Occurrences(cells, keys[0])
    else
      var rest := MinCount(keys[1..], cells);
      var here := Occurrences(cells, keys[0]);
      assert forall v :: v in keys[1..] ==> v in keys;
      if here <= rest then here else rest
  }

  /** `min(col.value_counts())`: the count of the rarest value present. */
  function MinorityCount(cells: seq<Value>): nat
    requires cells != []
  {
    MinCount(cells, cells)
  }

  /** The test the heuristic applies to one column of an n-row table:
      not skipped, at most two distinct values, all of them 0, 1 or -1,
      exactly two value counts, and a minority share in [0.01, 0.5]
      (stated without division: 100 * m >= n and 2 * m <= n). */
  predicate IsCandidate(col: Column, n: nat)
    ensures IsCandidate(col, n) ==>
      !Skipped(col.name) && |Distinct(col.cells)| == 2 && Distinct(col.cells) <= Codes
  {
    var u := Distinct(col.cells);
    !Skipped(col.name) && |u| <= 2 && u <= Codes && |u - {Missing}| == 2 &&
    (assert col.cells == [] ==> u == {};
     100 * MinorityCount(col.cells) >= n && 2 * MinorityCount(col.cells) <= n)
  }

  /** The names of the columns that `keep` accepts, in column order. */
  function NamesWhere(cols: seq<Column>, keep: Column -> bool): (names: seq<string>)
    ensures |names| <= |cols|
    ensures forall x :: x in names ==> exists c :: c in cols && c.name == x && keep(c)
    ensures forall c :: c in cols && keep(c) ==> c.name in names
  {
    if cols == [] then []
    else
      var init := cols[..|cols| - 1];
      var last := cols[|cols| - 1];
      assert forall c :: c in cols <==> c in init || c == last;
      NamesWhere(init, keep) + (if keep(last) then [last.name] else [])
  }

  /** Column p is accepted by `keep` and is called x. */
  predicate AcceptedAt(cols: seq<Column>, keep: Column -> bool, p: int, x: string) {
    0 <= p < |cols| && cols[p].name == x && keep(cols[p])
  }

  /** Every entry of the list comes from an accepted column. */
  lemma {:induction false} SourceOf(cols: seq<Column>, keep: Column -> bool, k: nat) returns (p: nat)
    requires k < |NamesWhere(cols, keep)|
    ensures AcceptedAt(cols, keep, p, NamesWhere(cols, keep)[k])
  {
    var init := cols[..|cols| - 1];
    if k < |NamesWhere(init, keep)| {
      p := SourceOf(init, keep, k);
      assert cols[p] == init[p];
    } else {
      p := |cols| - 1;
    }
  }

  /** Entries i < j of the list come from accepted columns p < q. */
  lemma {:induction false} OrderedSources(cols: seq<Column>, keep: Column -> bool, i: nat, j: nat)
    returns (p: nat, q: nat)
    requires i < j < |NamesWhere(cols, keep)|
    ensures p < q
    ensures AcceptedAt(cols, keep, p, NamesWhere(cols, keep)[i])
    ensures AcceptedAt(cols, keep, q, NamesWhere(cols, keep)[j])
  {
    var init := cols[..|cols| - 1];
    var front := NamesWhere(init, keep);
    if j < |front| {
      p, q := OrderedSources(init, keep, i, j);
      assert cols[p] == init[p] && cols[q] == init[q];
    } else {
      p := SourceOf(init, keep, i);
      assert cols[p] == init[p];
      q := |cols| - 1;
    }
  }

  /** The names of the candidate columns (`binary_cols`): one entry per
      passing column, in column order (see CandidatesInColumnOrder). */
  function Candidates(cols: seq<Column>, n: nat): (names: seq<string>)
    ensures |names| <= |cols|
    ensures forall x :: x in names ==> exists c :: c in cols && c.name == x && IsCandidate(c, n)
    ensures forall c :: c in cols && IsCandidate(c, n) ==> c.name in names
  {
    NamesWhere(cols, c => IsCandidate(c, n))
  }

  /** Any two entries of `binary_cols` come from passing columns in the same
      order as the entries. */
  lemma CandidatesInColumnOrder(cols: seq<Column>, n: nat, i: nat, j: nat)
    requires i < j < |Candidates(cols, n)|
    ensures exists p, q :: (0 <= p < q < |cols| &&
      cols[p].name == Candidates(cols, n)[i] && IsCandidate(cols[p], n) &&
      cols[q].name == Candidates(cols, n)[j] && IsCandidate(cols[q], n))
  {
    var p, q := OrderedSources(cols, c => IsCandidate(c, n), i, j);
  }

  /** In a table with distinct column names, `binary_cols` repeats no name. */
  lemma CandidatesDistinct(cols: seq<Column>, n: nat)
    requires DistinctNames(cols)
    ensures forall i, j :: 0 <= i < j < |Candidates(cols, n)| ==>
      Candidates(cols, n)[i] != Candidates(cols, n)[j]
  {
    forall i, j | 0 <= i < j < |Candidates(cols, n)|
      ensures Candidates(cols, n)[i] != Candidates(cols, n)[j]
    {
      var p, q := OrderedSources(cols, c => IsCandidate(c, n), i, j);
    }
  }

  /** The labels file found in the external directory, if a directory was given. */
  function LabelsFileIn(externalDir: Option<set<string>>): Option<string> {
    if externalDir.Some? then FirstPresent(LabelFiles, externalDir.value) else None
  }

  lemma TargetNamesNotSkipped()
    ensures forall k :: 0 <= k < |TargetNames| ==> !Skipped(TargetNames[k])
  {
    forall k, i | 0 <= k < |TargetNames| && 0 <= i < |FeaturePrefixes|
      ensures !StartsWith(TargetNames[k], FeaturePrefixes[i])
    {
      assert TargetNames[k][0] != FeaturePrefixes[i][0];
    }
  }

  /** The priority chain: labels file, then conventional names, then the
      heuristic, which answers only when exactly one column survives. An
      inline answer is always a column of the table that is neither a
      feature-group column nor an identifier. */
  function Resolve(t: Table, externalDir: Option<set<string>>): (r: Resolved)
    ensures r.Inline? ==> Has(t, r.name) && !Skipped(r.name)
  {
    var file := LabelsFileIn(externalDir);
    if file.Some? then External(file.value)
    else
      var named := FirstPresent(TargetNames, NameSet(t));
      if named.Some? then
        TargetNamesNotSkipped();
        Inline(named.value)
      else
        var binary := Candidates(t.cols, t.height);
        if |binary| == 1 then
          assert binary[0] in binary;
          Inline(binary[0])
        else Absent
  }

  /** identify_target_column, with the directory listing as the set of
      present file names (None when no directory is given). */
  method IdentifyTargetColumn(t: Table, externalDir: Option<set<string>>) returns (r: Resolved)
    ensures r == Resolve(t, externalDir)
  {
    if externalDir.Some? {
      var labelsFile := CheckForLabelsFile(externalDir.value);
      if labelsFile.Some? {
        return External(labelsFile.value);
      }
    }
    var named := FirstMatch(TargetNames, NameSet(t));
    if named.Some? {
      return Inline(named.value);
    }
    var binary: seq<string> := [];
    for i := 0 to |t.cols|
      invariant binary == Candidates(t.cols[..i], t.height)
    {
      assert t.cols[..i + 1][..i] == t.cols[..i];
      var col := t.cols[i];
      if Skipped(col.name) {
        continue;
      }
      var unique := Distinct(col.cells);
      if |unique| <= 2 && unique <= Codes {
        if |unique - {Missing}| == 2 {
          assert col.cells != [] by { assert col.cells == [] ==> unique == {}; }
          var minority := MinorityCount(col.cells);
          if 100 * minority >= t.height && 2 * minority <= t.height {
            binary := binary + [col.name];
          }
        }
      }
    }
    assert t.cols[..|t.cols|] == t.cols;
    if |binary| == 1 {
      return Inline(binary[0]);
    }
    return Absent;
  }

  // ---------------------------------------------------------------------
  // Properties of the resolution

  /** A labels file wins outright, whatever columns the table has. */
  lemma LabelsFileWins(t: Table, present: set<string>)
    requires FirstPresent(LabelFiles, present).Some?
    ensures Resolve(t, Some(present)) == External(FirstPresent(LabelFiles, present).value)
  {
  }

  /** Without a labels file, the first conventional name present is the
      target, before any heuristic is tried. */
  lemma ConventionalNamePriority(t: Table, externalDir: Option<set<string>>, k: nat)
    requires LabelsFileIn(externalDir).None?
    requires k < |TargetNames| && Has(t, TargetNames[k])
    requires forall j :: 0 <= j < k ==> !Has(t, TargetNames[j])
    ensures Resolve(t, externalDir) == Inline(TargetNames[k])
  {
  }

  /** A candidate is a column with exactly the two distinct values a and b,
      both codes, and a minority count between 1% and 50% of the rows. */
  lemma CandidateMeaning(col: Column, n: nat, a: Value, b: Value)
    requires a != b && Distinct(col.cells) == {a, b}
    ensures IsCandidate(col, n) <==>
      !Skipped(col.name) && a in Codes && b in Codes &&
      var m := if Occurrences(col.cells, a) <= Occurrences(col.cells, b)
               then Occurrences(col.cells, a) else Occurrences(col.cells, b);
      100 * m >= n && 2 * m <= n
  {
    assert |{a, b}| == 2;
    MinorityOfTwo(col.cells, a, b);
    assert a in Codes && b in Codes ==> {a, b} - {Missing} == {a, b};
  }

  /** With exactly the two distinct values a and b, `min(value_counts)` is
      the smaller of their counts. */
  lemma MinorityOfTwo(cells: seq<Value>, a: Value, b: Value)
    requires a != b && Distinct(cells) == {a, b}
    ensures cells != []
    ensures MinorityCount(cells) ==
      if Occurrences(cells, a) <= Occurrences(cells, b) then Occurrences(cells, a) else Occurrences(cells, b)
  {
    assert a in Distinct(cells) && b in Distinct(cells);
    var m := MinorityCount(cells);
    var v :| v in cells && m == Occurrences(cells, v);
    assert v in Distinct(cells);
    var i :| 0 <= i < |cells| && cells[i] == a;
    var j :| 0 <= j < |cells| && cells[j] == b;
    assert m <= Occurrences(cells, cells[i]);
    assert m <= Occurrences(cells, cells[j]);
  }

  /** Without a candidate, the list of candidates is empty. */
  lemma NoCandidates(cols: seq<Column>, n: nat)
    requires forall j :: 0 <= j < |cols| ==> !IsCandidate(cols[j], n)
    ensures Candidates(cols, n) == []
  {
    NoneAccepted(cols, c => IsCandidate(c, n));
  }

  lemma {:induction false} NoneAccepted(cols: seq<Column>, keep: Column -> bool)
    requires forall j :: 0 <= j < |cols| ==> !keep(cols[j])
    ensures NamesWhere(cols, keep) == []
  {
    if cols != [] {
      NoneAccepted(cols[..|cols| - 1], keep);
    }
  }

  /** Without a labels file or a conventional name, the heuristic decides. */
  lemma ResolveByHeuristic(t: Table, externalDir: Option<set<string>>)
    requires LabelsFileIn(externalDir).None?
    requires forall k :: 0 <= k < |TargetNames| ==> !Has(t, TargetNames[k])
    ensures var binary := Candidates(t.cols, t.height);
      Resolve(t, externalDir) == if |binary| == 1 then Inline(binary[0]) else Absent
  {
    assert FirstPresent(TargetNames, NameSet(t)).None?;
  }

  /** With exactly one candidate column, the list is that column's name alone. */
  lemma {:induction false} OnlyCandidate(cols: seq<Column>, n: nat, k: nat)
    requires k < |cols| && IsCandidate(cols[k], n)
    requires forall j :: 0 <= j < |cols| && j != k ==> !IsCandidate(cols[j], n)
    ensures Candidates(cols, n) == [cols[k].name]
  {
    var init := cols[..|cols| - 1];
    if k == |cols| - 1 {
      NoCandidates(init, n);
    } else {
      OnlyCandidate(init, n, k);
    }
  }

  /** The heuristic answers with the single surviving column. */
  lemma SingleCandidateChosen(t: Table, externalDir: Option<set<string>>, k: nat)
    requires LabelsFileIn(externalDir).None?
    requires forall j :: 0 <= j < |TargetNames| ==> !Has(t, TargetNames[j])
    requires k < |t.cols| && IsCandidate(t.cols[k], t.height)
    requires forall j :: 0 <= j < |t.cols| && j != k ==> !IsCandidate(t.cols[j], t.height)
    ensures Resolve(t, externalDir) == Inline(t.cols[k].name)
  {
    OnlyCandidate(t.cols, t.height, k);
    ResolveByHeuristic(t, externalDir);
  }

  /** Two surviving columns make the heuristic give up: no guess is made. */
  lemma SeveralCandidatesAbsent(t: Table, externalDir: Option<set<string>>, i: nat, j: nat)
    requires t.Valid()
    requires LabelsFileIn(externalDir).None?
    requires forall k :: 0 <= k < |TargetNames| ==> !Has(t, TargetNames[k])
    requires i < j < |t.cols|
    requires IsCandidate(t.cols[i], t.height) && IsCandidate(t.cols[j], t.height)
    ensures Resolve(t, externalDir) == Absent
  {
    TwoCandidates(t, i, j);
    ResolveByHeuristic(t, externalDir);
  }

  lemma TwoCandidates(t: Table, i: nat, j: nat)
    requires t.Valid()
    requires i < j < |t.cols|
    requires IsCandidate(t.cols[i], t.height) && IsCandidate(t.cols[j], t.height)
    ensures |Candidates(t.cols, t.height)| >= 2
  {
    var binary := Candidates(t.cols, t.height);
    var x, y := t.cols[i], t.cols[j];
    assert x in t.cols && y in t.cols;
    AtLeastTwo(binary, x.name, y.name);
  }

  lemma AtLeastTwo(s: seq<string>, x: string, y: string)
    requires x in s && y in s && x != y
    ensures |s| >= 2
  {
  }

  /** No surviving column: the target is absent. */
  lemma NoCandidateAbsent(t: Table, externalDir: Option<set<string>>)
    requires LabelsFileIn(externalDir).None?
    requires forall k :: 0 <= k < |TargetNames| ==> !Has(t, TargetNames[k])
    requires forall j :: 0 <= j < |t.cols| ==> !IsCandidate(t.cols[j], t.height)
    ensures Resolve(t, externalDir) == Absent
  {
    NoCandidates(t.cols, t.height);
    ResolveByHeuristic(t, externalDir);
  }

  // ---------------------------------------------------------------------
  // Splitting into features, labels and identifiers

  /** Features, the label column (if any) and the identifier column (if any). */
  datatype Split = Split(features: Table, labels: Option<Column>, ids: Option<Column>)

  /** Why loading labels from the external table raises:
      it has no label column to take (`iloc[:, 0]` out of bounds), or its
      identifiers repeat and realignment is needed (`reindex` refuses
      duplicate labels). */
  datatype SplitError = NoLabelColumn | DuplicateLabelIds

  /** The identifier column: the first of customer_ID, id, customer_id present. */
  function IdColumn(t: Table): (id: Option<string>)
    ensures id == FirstPresent(IdNames, NameSet(t))
  {
    assert IdNames[0] == "customer_ID" && IdNames[1] == "id" && IdNames[2] == "customer_id";
    if Has(t, "customer_ID") then Some("customer_ID")
    else if Has(t, "id") then Some("id")
    else if Has(t, "customer_id") then Some("customer_id")
    else None
  }

  function IdSet(id: Option<string>): set<string> {
    if id.Some? then {id.value} else {}
  }

  /** The labels are joined by identifier: the table has an identifier
      column and the labels table has a column of the same name. */
  predicate JoinsById(t: Table, labels: Table) {
    var id := IdColumn(t);
    id.Some? && Has(labels, id.value)
  }

  predicate Unique(keys: seq<Value>) {
    forall i, j :: 0 <= i < j < |keys| ==> keys[i] != keys[j]
  }

  /** Position of the first occurrence of `key`, or |keys| when it does not occur. */
  function KeyIndex(keys: seq<Value>, key: Value): (k: nat)
    ensures k <= |keys|
    ensures k < |keys| ==> keys[k] == key
    ensures forall j :: 0 <= j < k ==> keys[j] != key
  {
    if keys == [] then 0
    else if keys[0] == key then 0
    else 1 + KeyIndex(keys[1..], key)
  }

  /** The value paired with the first occurrence of `key`, or Missing. */
  function ValueFor(keys: seq<Value>, vals: seq<Value>, key: Value): (v: Value)
    requires |keys| == |vals|
    ensures key !in keys ==> v == Missing
    ensures forall j :: 0 <= j < |keys| && keys[j] == key && (forall p :: 0 <= p < j ==> keys[p] != key)
              ==> v == vals[j]
  {
    var k := KeyIndex(keys, key);
    if k < |keys| then vals[k] else Missing
  }

  /** The label cells drawn from an external labels table: `set_index`,
      `iloc[:, 0]` and `reindex` when joining by identifier, `iloc[:, 0]`
      when taking the first column by position. */
  function ExternalLabels(t: Table, labels: Table): (r: Result<seq<Value>, SplitError>)
    requires t.Valid() && labels.Valid()
    ensures r.Ok? ==> |r.value| == if JoinsById(t, labels) then t.height else labels.height
  {
    var id := IdColumn(t);
    if id.Some? && Has(labels, id.value) then
      var rest := Drop(labels, {id.value}).cols;
      if rest == [] then Err(NoLabelColumn)
      else
        var keys := Get(labels, id.value);
        var vals := rest[0].cells;
        var wanted := Get(t, id.value);
        assert rest[0] in rest;
        if keys == wanted then Ok(vals)
        else if !Unique(keys) then Err(DuplicateLabelIds)
        else Ok(seq(|wanted|, i requires 0 <= i < |wanted| => ValueFor(keys, vals, wanted[i])))
    else if labels.cols == [] then Err(NoLabelColumn)
    else
      assert labels.cols[0] in labels.cols;
      Ok(labels.cols[0].cells)
  }

  /** separate_features_labels. `labels` is the table read from the labels
      file when `target` is External; it is not consulted otherwise. */
  function Separate(t: Table, target: Resolved, labels: Table): (r: Result<Split, SplitError>)
    requires t.Valid() && labels.Valid()
    ensures r.Err? ==> target.External?
    ensures r.Ok? ==> r.value.features.Valid() && r.value.features.height == t.height
    ensures r.Ok? ==> IsSubsequence(r.value.features.cols, t.cols)
    ensures r.Ok? ==> forall c :: c in t.cols && c.name !in IdSet(IdColumn(t)) + TargetSet(t, target)
                        ==> c in r.value.features.cols
    ensures r.Ok? && IdColumn(t).Some? ==>
      var id := IdColumn(t).value;
      !Has(r.value.features, id) && r.value.ids == Some(Column(id, Get(t, id)))
    ensures r.Ok? && IdColumn(t).None? ==> r.value.ids.None?
    ensures r.Ok? && r.value.labels.Some? ==>
      |r.value.labels.value.cells| ==
        if target.External? && !JoinsById(t, labels) then labels.height else t.height
  {
    var id := IdColumn(t);
    var ids := if id.Some? then Some(Column(id.value, Get(t, id.value))) else None;
    match target
    case External(_) =>
      var y := ExternalLabels(t, labels);
      if y.Err? then Err(y.error)
      else Ok(Split(Drop(t, IdSet(id)), Some(Column("target", y.value)), ids))
    case Inline(c) =>
      if c != "" && Has(t, c) then
        Ok(Split(Drop(t, {c} + IdSet(id)), Some(Column(c, Get(t, c))), ids))
      else
        Ok(Split(Drop(t, IdSet(id)), None, ids))
    case Absent =>
      Ok(Split(Drop(t, IdSet(id)), None, ids))
  }

  /** The inline target column that the split removes from the features
      (an empty name is falsy and is not used as a target). */
  function TargetSet(t: Table, target: Resolved): set<string> {
    if target.Inline? && target.name != "" && Has(t, target.name) then {target.name} else {}
  }

  // ---------------------------------------------------------------------
  // Properties of the split

  /** Inline target: the label is the target column itself, the features are
      every other non-identifier column, unchanged. */
  lemma InlineSplit(t: Table, c: string, labels: Table)
    requires t.Valid() && labels.Valid() && c != "" && Has(t, c)
    ensures Separate(t, Inline(c), labels).Ok?
    ensures var s := Separate(t, Inline(c), labels).value;
      s.labels == Some(Column(c, Get(t, c))) && !Has(s.features, c) &&
      (forall col :: col in s.features.cols <==>
         col in t.cols && col.name != c && col.name !in IdSet(IdColumn(t))) &&
      |s.labels.value.cells| == s.features.height == t.height
  {
  }

  /** No target: only the identifier column leaves the features, and there
      is no label. */
  lemma NoTargetSplit(t: Table, labels: Table)
    requires t.Valid() && labels.Valid()
    ensures Separate(t, Absent, labels).Ok?
    ensures var s := Separate(t, Absent, labels).value;
      s.labels.None? &&
      forall col :: col in s.features.cols <==> col in t.cols && col.name !in IdSet(IdColumn(t))
  {
  }

  /** External labels: the features drop only the identifier column, so a
      column of the table that is called "target" stays a feature; the
      label column is called "target". */
  lemma ExternalKeepsInlineColumns(t: Table, file: string, labels: Table)
    requires t.Valid() && labels.Valid()
    requires Separate(t, External(file), labels).Ok?
    ensures var s := Separate(t, External(file), labels).value;
      (forall col :: col in s.features.cols <==> col in t.cols && col.name !in IdSet(IdColumn(t))) &&
      (Has(t, "target") ==> Has(s.features, "target")) &&
      s.labels.Some? && s.labels.value.name == "target"
  {
  }

  /** Join by identifier: row i of the label is the labels-table value for
      the table's identifier at row i, Missing when that identifier does
      not occur; duplicated identifiers are refused unless the two
      identifier columns are already equal, row for row. */
  lemma JoinByIdLabels(t: Table, labels: Table)
    requires t.Valid() && labels.Valid() && JoinsById(t, labels)
    ensures var id := IdColumn(t).value;
      var rest := Drop(labels, {id}).cols;
      var keys := Get(labels, id);
      var wanted := Get(t, id);
      var r := ExternalLabels(t, labels);
      (rest == [] ==> r == Err(NoLabelColumn)) &&
      (rest != [] ==>
        (r == Err(DuplicateLabelIds) <==> !Unique(keys) && keys != wanted) &&
        (r.Ok? ==>
          (forall i :: 0 <= i < |wanted| && wanted[i] !in keys ==> r.value[i] == Missing) &&
          (forall i, j :: 0 <= i < |wanted| && 0 <= j < |keys| && wanted[i] == keys[j] && Unique(keys)
             ==> r.value[i] == rest[0].cells[j]) &&
          (!Unique(keys) ==> r.value == rest[0].cells)))
  {
  }

  /** Without a shared identifier the label is taken by position: the first
      column of the labels table, whatever it is called (an identifier
      column included), with the labels table's own length. */
  lemma PositionalLabels(t: Table, labels: Table)
    requires t.Valid() && labels.Valid() && !JoinsById(t, labels)
    ensures labels.cols == [] <==> ExternalLabels(t, labels) == Err(NoLabelColumn)
    ensures labels.cols != [] ==> ExternalLabels(t, labels) == Ok(labels.cols[0].cells)
  {
  }

  /** The alignment guarantee: every output has one entry per row of the
      table, except a positionally taken label, which is aligned exactly
      when the labels table has as many rows. */
  lemma SplitAligned(t: Table, target: Resolved, labels: Table)
    requires t.Valid() && labels.Valid()
    requires target.External? && !JoinsById(t, labels) ==> labels.height == t.height
    requires Separate(t, target, labels).Ok?
    ensures var s := Separate(t, target, labels).value;
      s.features.height == t.height &&
      (s.labels.Some? ==> |s.labels.value.cells| == t.height) &&
      (s.ids.Some? ==> |s.ids.value.cells| == t.height)
  {
  }

  /** Resolution then split: an inline target becomes the label column and
      leaves the features, as does the identifier; an empty column name,
      which only the heuristic can produce, is dropped as "no target". */
  lemma ResolveThenSplit(t: Table, externalDir: Option<set<string>>, labels: Table)
    requires t.Valid() && labels.Valid()
    requires Resolve(t, externalDir).Inline?
    ensures var c := Resolve(t, externalDir).name;
      var s := Separate(t, Inline(c), labels);
      s.Ok? &&
      (c != "" ==> s.value.labels == Some(Column(c, Get(t, c))) && !Has(s.value.features, c)) &&
      (c == "" ==> s.value.labels.None? && Has(s.value.features, c))
  {
    var c := Resolve(t, externalDir).name;
    if c == "" {
      var col :| col in t.cols && col.name == c;
      assert !Skipped(c);
    }
  }
}
