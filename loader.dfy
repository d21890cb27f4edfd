/** `load_spreadsheet`: choosing a parser from the file name, refusing
    unsupported and empty files, and dropping columns whose name repeats. */
module Loader {
  import opened Wrappers
  import opened Seqs
  import opened Tables

  /** What one parser made of the uploaded bytes. */
  datatype Parsed = Parsed(table: Table) | ParseError(message: string)

  /** An uploaded file: its name, and what the CSV parser and the Excel
      parser each produce from its bytes. The parsers themselves are not
      modelled; only the one the extension selects is consulted. */
  datatype Upload = Upload(name: string, asCsv: Parsed, asExcel: Parsed)

  /** The `(data frame, error message)` pair: nothing uploaded, a table, or
      a message for the user. */
  datatype LoadResult = NoFile | Loaded(table: Table) | LoadError(message: string)

  const UnsupportedMessage := "Unsupported file type. Please upload CSV or Excel files."
  const EmptyMessage := "Uploaded file has no rows."
  const ReadErrorPrefix := "Could not read file: "

  function LowerChar(c: char): char
  {
    if 'A' <= c <= 'Z' then (c as int + 32) as char else c
  }

  /** The file name in lower case (ASCII letters only). */
  function Lower(s: string): (r: string)
    ensures |r| == |s| && forall i :: 0 <= i < |s| ==> r[i] == LowerChar(s[i])
  {
    seq(|s|, i requires 0 <= i < |s| => LowerChar(s[i]))
  }

  predicate EndsWith(s: string, suffix: string)
  {
    |suffix| <= |s| && s[|s| - |suffix|..] == suffix
  }

  datatype Format = Csv | Excel | Unsupported

  /** The last `n` characters of a name, lower-cased, or "" when the name is
      shorter. */
  function Extension(name: string, n: nat): string
  {
    if |name| < n then "" else Lower(name[|name| - n..])
  }

  /** The parser the lower-cased extension selects: `.csv`, else `.xlsx` or
      `.xls`, else none. Only the last characters of the name decide, in any
      case. */
  function FormatOf(name: string): (r: Format)
    ensures r == Csv <==> Extension(name, 4) == ".csv"
    ensures r == Excel <==> Extension(name, 5) == ".xlsx" || Extension(name, 4) == ".xls"
  {
    LowerTail(name, 4);
    LowerTail(name, 5);
    assert |name| >= 5 ==> Extension(name, 5)[1..] == Extension(name, 4);
    var lower := Lower(name);
    if EndsWith(lower, ".csv") then Csv
    else if EndsWith(lower, ".xlsx") || EndsWith(lower, ".xls") then Excel
    else Unsupported
  }

  /** The end of a lower-cased name is the lower-cased end of the name. */
  lemma LowerTail(name: string, n: nat)
    ensures forall x :: |x| == n ==> (EndsWith(Lower(name), x) <==> Extension(name, n) == x)
  {
    if |name| >= n {
      assert Lower(name)[|name| - n..] == Extension(name, n);
    }
  }

  /** Lower-casing twice changes nothing. */
  lemma LowerIdempotent(s: string)
    ensures Lower(Lower(s)) == Lower(s)
  {
  }

  /** The extension test ignores case: a name and its lower-case form pick
      the same parser. */
  lemma FormatIgnoresCase(name: string)
    ensures FormatOf(Lower(name)) == FormatOf(name)
  {
    LowerIdempotent(name);
  }

  /** Lower-casing a name lower-cases its last characters. */
  lemma LowerSuffix(stem: string, ext: string)
    ensures Lower(stem + ext) == Lower(stem) + Lower(ext)
  {
  }

  /** A name ending in ".csv" (in any case) goes to the CSV parser, one
      ending in ".xlsx" or ".xls" to the Excel parser. */
  lemma FormatByExtension(stem: string)
    ensures FormatOf(stem + ".csv") == Csv && FormatOf(stem + ".CSV") == Csv
    ensures FormatOf(stem + ".xlsx") == Excel && FormatOf(stem + ".XLS") == Excel
  {
    LowerSuffix(stem, ".csv");
    LowerSuffix(stem, ".CSV");
    LowerSuffix(stem, ".xlsx");
    LowerSuffix(stem, ".XLS");
    assert Lower(".csv") == ".csv" && Lower(".CSV") == ".csv";
    assert Lower(".xlsx") == ".xlsx" && Lower(".XLS") == ".xls";
    EndsWithAppend(Lower(stem), ".csv", ".csv");
    EndsWithAppend(Lower(stem), ".xlsx", ".csv");
    EndsWithAppend(Lower(stem), ".xlsx", ".xlsx");
    EndsWithAppend(Lower(stem), ".xls", ".csv");
    EndsWithAppend(Lower(stem), ".xls", ".xls");
  }

  /** Only the last characters decide a suffix test. */
  lemma EndsWithAppend(a: string, b: string, suffix: string)
    requires |suffix| <= |b|
    ensures EndsWith(a + b, suffix) <==> EndsWith(b, suffix)
  {
    assert (a + b)[|a + b| - |suffix|..] == b[|b| - |suffix|..];
  }

  /** pandas' `DataFrame.empty`: no rows or no columns. A table is empty
      exactly when no row holds a cell. */
  predicate IsEmpty(t: Table)
    ensures WellFormed(t) ==> (IsEmpty(t) <==> forall i :: 0 <= i < |t.rows| ==> t.rows[i] == [])
  {
    assert WellFormed(t) && |t.rows| > 0 ==> |t.rows[0]| == |t.columns|;
    |t.rows| == 0 || |t.columns| == 0
  }

  /** The positions of the columns whose name does not occur earlier. */
  function FirstOccurrences(columns: seq<string>): (idxs: seq<nat>)
    ensures InBounds(idxs, |columns|)
  {
    Where(NotDuplicated(columns))
  }

  /** Keeps the first column of each name and drops every later column with
      a name seen before, cells included (`df.loc[:, ~df.columns.duplicated()]`). */
  function DropDuplicateColumns(t: Table): (r: Table)
    requires WellFormed(t)
    ensures WellFormed(r) && |r.rows| == |t.rows|
    ensures Distinct(r.columns)
    ensures |t.columns| > 0 ==> |r.columns| > 0
  {
    var idxs := FirstOccurrences(t.columns);
    WhereComplete(NotDuplicated(t.columns));
    assert |t.columns| > 0 ==> NotDuplicated(t.columns)[0];
    SelectColumns(t, idxs)
  }

  /** What the dropping keeps: every name, once, at its first occurrence,
      in the order of first occurrence, with that column's cells. */
  lemma DropDuplicateColumnsSpec(t: Table)
    requires WellFormed(t)
    ensures var r := DropDuplicateColumns(t);
            && (forall c :: c in r.columns <==> c in t.columns)
            && (forall a, b :: 0 <= a < b < |r.columns| ==>
                  IndexOf(t.columns, r.columns[a]) < IndexOf(t.columns, r.columns[b]))
            && (forall i, j :: 0 <= i < |r.rows| && 0 <= j < |r.columns| ==>
                  r.rows[i][j] == t.rows[i][IndexOf(t.columns, r.columns[j])])
  {
    var idxs := FirstOccurrences(t.columns);
    var r := DropDuplicateColumns(t);
    WhereComplete(NotDuplicated(t.columns));
    forall j | 0 <= j < |idxs| ensures IndexOf(t.columns, r.columns[j]) == idxs[j] {
      IndexOfUnique(t.columns, r.columns[j], idxs[j]);
    }
    forall c | c in t.columns ensures c in r.columns {
      var k := IndexOf(t.columns, c);
      assert NotDuplicated(t.columns)[k];
      var j :| 0 <= j < |idxs| && idxs[j] == k;
      assert r.columns[j] == c;
    }
  }

  /** Dropping repeated columns a second time changes nothing. */
  lemma DropDuplicateColumnsIdempotent(t: Table)
    requires WellFormed(t)
    ensures DropDuplicateColumns(DropDuplicateColumns(t)) == DropDuplicateColumns(t)
  {
    var r := DropDuplicateColumns(t);
    DistinctNotDuplicated(r.columns);
    WhereAll(NotDuplicated(r.columns));
    assert FirstOccurrences(r.columns) == seq(|r.columns|, k => k);
    SelectAllColumns(r);
  }

  /** Columns A, B, A load as A, B with the first A's cells, and loading
      the result again gives it back unchanged. */
  lemma RepeatedNameExample()
    ensures var t := Table(["A", "B", "A"], [[Number(1.0), Number(2.0), Number(3.0)]]);
            var r := DropDuplicateColumns(t);
            && r == Table(["A", "B"], [[Number(1.0), Number(2.0)]])
            && DropDuplicateColumns(r) == r
  {
    var t := Table(["A", "B", "A"], [[Number(1.0), Number(2.0), Number(3.0)]]);
    RepeatedNamePositions();
    var r := DropDuplicateColumns(t);
    assert r == SelectColumns(t, [0, 1]);
    assert r.columns == ["A", "B"];
    assert |r.rows| == 1 && |r.rows[0]| == 2;
    assert r.rows[0][0] == Number(1.0) && r.rows[0][1] == Number(2.0);
    assert r.rows[0] == [Number(1.0), Number(2.0)];
    DropDuplicateColumnsIdempotent(t);
  }

  /** In A, B, A the first occurrences sit at positions 0 and 1. */
  lemma RepeatedNamePositions()
    ensures FirstOccurrences(["A", "B", "A"]) == [0, 1]
  {
    var cols: seq<string> := ["A", "B", "A"];
    assert cols[..1] == ["A"] && cols[..2] == ["A", "B"];
    assert NotDuplicated(cols) == [true, true, false];
    assert [true, true, false][..2] == [true, true];
    assert [true, true][..1] == [true];
    assert Where([true, true, false]) == [0, 1];
  }

  /** The parser outcome the file name selects. */
  function Chosen(file: Upload): Parsed
  {
    if FormatOf(file.name) == Csv then file.asCsv else file.asExcel
  }

  /** The table an upload yields, or the message explaining why not. */
  function LoadSpreadsheet(upload: Option<Upload>): (r: LoadResult)
    requires upload.Some? && upload.value.asCsv.Parsed? ==> WellFormed(upload.value.asCsv.table)
    requires upload.Some? && upload.value.asExcel.Parsed? ==> WellFormed(upload.value.asExcel.table)
    ensures r.NoFile? <==> upload.None?
    ensures upload.Some? && FormatOf(upload.value.name) == Unsupported ==> r == LoadError(UnsupportedMessage)
    ensures r.Loaded? ==>
              WellFormed(r.table) && |r.table.rows| >= 1 && |r.table.columns| >= 1 && Distinct(r.table.columns)
    ensures upload.Some? && FormatOf(upload.value.name) != Unsupported && Chosen(upload.value).ParseError? ==>
              r == LoadError(ReadErrorPrefix + Chosen(upload.value).message)
    ensures upload.Some? && FormatOf(upload.value.name) != Unsupported && Chosen(upload.value).Parsed? ==>
              (r == LoadError(EmptyMessage) <==> IsEmpty(Chosen(upload.value).table))
    ensures upload.Some? && FormatOf(upload.value.name) != Unsupported && Chosen(upload.value).Parsed? &&
            !IsEmpty(Chosen(upload.value).table) ==>
              r == Loaded(DropDuplicateColumns(Chosen(upload.value).table))
    ensures r.Loaded? ==>
              FormatOf(upload.value.name) != Unsupported && Chosen(upload.value).Parsed? &&
              r.table == DropDuplicateColumns(Chosen(upload.value).table)
  {
    match upload
    case None => NoFile
    case Some(file) =>
      var format := FormatOf(file.name);
      if format == Unsupported then LoadError(UnsupportedMessage)
      else
        match Chosen(file)
        case ParseError(message) => LoadError(ReadErrorPrefix + message)
        case Parsed(t) =>
          if IsEmpty(t) then LoadError(EmptyMessage)
          else Loaded(DropDuplicateColumns(t))
  }
}
