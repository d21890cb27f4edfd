/** The parsed spreadsheet: named columns over rows of scalar cells, and the
    column and row selections that pandas performs on it. */
module Tables {
  import opened Wrappers
  import opened Seqs

  /** A scalar cell; `Missing` is pandas' NaN / empty-value marker. */
  datatype Cell = Missing | Text(text: string) | Number(number: real) | Flag(flag: bool)

  type Row = seq<Cell>

  /** Column names in order, and the rows in file order. */
  datatype Table = Table(columns: seq<string>, rows: seq<Row>)

  /** Every row has one cell per column, as in any data frame. */
  predicate WellFormed(t: Table)
  {
    forall i :: 0 <= i < |t.rows| ==> |t.rows[i]| == |t.columns|
  }

  predicate InBounds(idxs: seq<nat>, n: nat)
  {
    forall j :: 0 <= j < |idxs| ==> idxs[j] < n
  }

  /** The cells of column `k`, top to bottom. */
  function Column(t: Table, k: nat): (col: seq<Cell>)
    requires WellFormed(t) && k < |t.columns|
    ensures |col| == |t.rows|
    ensures forall i :: 0 <= i < |t.rows| ==> col[i] == t.rows[i][k]
  {
    seq(|t.rows|, i requires 0 <= i < |t.rows| => t.rows[i][k])
  }

  /** The table made of the columns at positions `idxs`, in that order. */
  function SelectColumns(t: Table, idxs: seq<nat>): (r: Table)
    requires WellFormed(t) && InBounds(idxs, |t.columns|)
    ensures WellFormed(r) && |r.columns| == |idxs| && |r.rows| == |t.rows|
    ensures forall j :: 0 <= j < |idxs| ==> r.columns[j] == t.columns[idxs[j]]
    ensures forall i, j :: 0 <= i < |t.rows| && 0 <= j < |idxs| ==> r.rows[i][j] == t.rows[i][idxs[j]]
  {
    Table(seq(|idxs|, j requires 0 <= j < |idxs| => t.columns[idxs[j]]),
          seq(|t.rows|, i requires 0 <= i < |t.rows| =>
            seq(|idxs|, j requires 0 <= j < |idxs| => t.rows[i][idxs[j]])))
  }

  /** The table made of the columns named `names`, in that order
      (`df[names]`); each name picks its first column. */
  function SelectByName(t: Table, names: seq<string>): (r: Table)
    requires WellFormed(t) && forall c :: c in names ==> c in t.columns
    ensures WellFormed(r) && r.columns == names && |r.rows| == |t.rows|
    ensures forall i, j :: 0 <= i < |t.rows| && 0 <= j < |names| ==>
              r.rows[i][j] == t.rows[i][IndexOf(t.columns, names[j])]
  {
    SelectColumns(t, Positions(t.columns, names))
  }

  /** Each cell of `r` is the cell, in the same row, of the first column of
      `t` that has its column's name. */
  predicate CellsByName(r: Table, t: Table)
    requires WellFormed(r) && WellFormed(t) && |r.rows| == |t.rows|
    requires forall c :: c in r.columns ==> c in t.columns
  {
    forall i, j :: 0 <= i < |r.rows| && 0 <= j < |r.columns| ==>
      r.rows[i][j] == t.rows[i][IndexOf(t.columns, r.columns[j])]
  }

  /** `df[names]`: the columns named `names`, or the names that label no
      column (pandas raises `KeyError` listing them). */
  function SelectNamed(t: Table, names: seq<string>): (r: Result<Table, seq<string>>)
    requires WellFormed(t)
    ensures r.Success? <==> forall c :: c in names ==> c in t.columns
    ensures r.Failure? ==> forall c :: c in r.error <==> c in names && c !in t.columns
    ensures r.Success? ==> WellFormed(r.value) && r.value.columns == names && |r.value.rows| == |t.rows|
    ensures r.Success? ==> CellsByName(r.value, t)
  {
    var missing := Filter(names, c => c !in t.columns);
    FilterMembers(names, c => c !in t.columns);
    if missing == [] then Success(SelectByName(t, names)) else Failure(missing)
  }

  /** The table made of the rows at positions `idxs`, in that order. */
  function SelectRows(t: Table, idxs: seq<nat>): (r: Table)
    requires WellFormed(t) && InBounds(idxs, |t.rows|)
    ensures WellFormed(r) && r.columns == t.columns && |r.rows| == |idxs|
    ensures forall j :: 0 <= j < |idxs| ==> r.rows[j] == t.rows[idxs[j]]
  {
    Table(t.columns, seq(|idxs|, j requires 0 <= j < |idxs| => t.rows[idxs[j]]))
  }

  /** Selecting every column in order gives the table back. */
  lemma SelectAllColumns(t: Table)
    requires WellFormed(t)
    ensures SelectColumns(t, seq(|t.columns|, k => k)) == t
  {
    var r := SelectColumns(t, seq(|t.columns|, k => k));
    assert r.columns == t.columns;
    forall i | 0 <= i < |t.rows| ensures r.rows[i] == t.rows[i] {
    }
  }

  /** The first row whose cell in column `k` is `key`, if there is one. */
  function FirstRowWithKey(t: Table, k: nat, key: Cell): (r: Option<Row>)
    requires WellFormed(t) && k < |t.columns|
    ensures r.Some? ==> |r.value| == |t.columns|
  {
    var col := Column(t, k);
    if key in col then Some(t.rows[IndexOf(col, key)]) else None
  }

  /** Row `p` is found when it is the first row holding `key` in column `k`. */
  lemma FirstRowWithKeyAt(t: Table, k: nat, key: Cell, p: nat)
    requires WellFormed(t) && k < |t.columns| && p < |t.rows|
    requires t.rows[p][k] == key
    requires forall q :: 0 <= q < p ==> t.rows[q][k] != key
    ensures FirstRowWithKey(t, k, key) == Some(t.rows[p])
  {
    var col := Column(t, k);
    assert forall q :: 0 <= q < p ==> col[..p][q] == col[q];
    IndexOfUnique(col, key, p);
  }

  /** Nothing is found when no row holds `key` in column `k`. */
  lemma FirstRowWithKeyNone(t: Table, k: nat, key: Cell)
    requires WellFormed(t) && k < |t.columns|
    requires forall q :: 0 <= q < |t.rows| ==> t.rows[q][k] != key
    ensures FirstRowWithKey(t, k, key) == None
  {
    assert key !in Column(t, k);
  }
}
