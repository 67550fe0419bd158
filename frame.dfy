/** The in-memory table the data scripts work on, stored column by column:
    each column has a name and one cell per row, and row i of the table is
    the i-th cell of every column. */
module Frame {

  /** A scalar cell: an integer-valued number (whether stored as 0 or 0.0)
      is `Num`, a text value is `Text`, and a missing value (NaN or None) is
      `Missing`. Fractional numbers have no case of their own. */
  datatype Value = Num(n: int) | Text(s: string) | Missing

  datatype Column = Column(name: string, cells: seq<Value>)

  datatype Table = Table(cols: seq<Column>, height: nat) {
    /** Every column has one cell per row, and no two columns share a name
        (the file readers never produce duplicate column names). */
    predicate Valid() {
      (forall c :: c in cols ==> |c.cells| == height) &&
      (forall i, j :: 0 <= i < j < |cols| ==> cols[i].name != cols[j].name)
    }
  }

  /** The column labels, in table order. */
  function Names(t: Table): (names: seq<string>)
    ensures |names| == |t.cols|
    ensures forall i :: 0 <= i < |t.cols| ==> names[i] == t.cols[i].name
  {
    seq(|t.cols|, i requires 0 <= i < |t.cols| => t.cols[i].name)
  }

  function NameSet(t: Table): set<string> {
    set c | c in t.cols :: c.name
  }

  /** `name in df.columns` */
  predicate Has(t: Table, name: string) {
    name in NameSet(t)
  }

  /** The (first) column called `name`. */
  function ColumnNamed(cols: seq<Column>, name: string): (c: Column)
    requires exists d :: d in cols && d.name == name
    ensures c in cols && c.name == name
  {
    if cols[0].name == name then cols[0]
    else
      assert forall d :: d in cols && d != cols[0] ==> d in cols[1..];
      ColumnNamed(cols[1..], name)
  }

  /** `df[name]`: the cells of the column called `name`, in row order. */
  function Get(t: Table, name: string): (cells: seq<Value>)
    requires Has(t, name)
    ensures t.Valid() ==> |cells| == t.height
    ensures t.Valid() ==> forall c :: c in t.cols && c.name == name ==> c.cells == cells
  {
    var c := ColumnNamed(t.cols, name);
    c.cells
  }

  /** `r` lists elements of `s` in the order they occur in `s` (greedy match). */
  predicate IsSubsequence(r: seq<Column>, s: seq<Column>) {
    if r == [] then true
    else if s == [] then false
    else if r[0] == s[0] then IsSubsequence(r[1..], s[1..])
    else IsSubsequence(r, s[1..])
  }

  predicate DistinctNames(cols: seq<Column>) {
    forall i, j :: 0 <= i < j < |cols| ==> cols[i].name != cols[j].name
  }

  /** The columns whose names are not excluded, in their original order. */
  function DropCols(cols: seq<Column>, excluded: set<string>): (r: seq<Column>)
    ensures forall c :: c in r <==> c in cols && c.name !in excluded
    ensures IsSubsequence(r, cols)
    ensures DistinctNames(cols) ==> DistinctNames(r)
  {
    if cols == [] then []
    else
      var rest := DropCols(cols[1..], excluded);
      assert forall c :: c in cols <==> c == cols[0] || c in cols[1..];
      if cols[0].name in excluded then
        assert rest != [] ==> rest[0] in rest && rest[0] != cols[0];
        rest
      else
        var r := [cols[0]] + rest;
        assert r[1..] == rest;
        assert DistinctNames(cols) ==> forall c :: c in rest ==> c.name != cols[0].name by {
          if DistinctNames(cols) {
            forall c | c in rest ensures c.name != cols[0].name {
              var k :| 0 <= k < |cols[1..]| && cols[1..][k] == c;
              assert cols[k + 1] == c;
            }
          }
        }
        assert DistinctNames(cols) ==> DistinctNames(r) by {
          if DistinctNames(cols) {
            forall i, j | 0 <= i < j < |r| ensures r[i].name != r[j].name {
              if i == 0 {
                assert r[j] in rest;
              } else {
                assert r[i] == rest[i - 1] && r[j] == rest[j - 1];
              }
            }
          }
        }
        r
  }

  /** `df.drop(columns=excluded)`: the same rows, without the excluded columns;
      the kept columns keep their cells (so row order) and their order. */
  function Drop(t: Table, excluded: set<string>): (r: Table)
    ensures r.height == t.height
    ensures forall c :: c in r.cols <==> c in t.cols && c.name !in excluded
    ensures IsSubsequence(r.cols, t.cols)
    ensures t.Valid() ==> r.Valid()
    ensures forall n :: n in excluded ==> !Has(r, n)
  {
    Table(DropCols(t.cols, excluded), t.height)
  }

  /** `col.unique()` as a set. */
  function Distinct(cells: seq<Value>): set<Value> {
    set v | v in cells
  }

  /** The entry of `col.value_counts()` for `v`. */
  function Occurrences(cells: seq<Value>, v: Value): nat {
    multiset(cells)[v]
  }
}
