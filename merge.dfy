/** `merge_frames`: the VLOOKUP-style left join of a base table with a
    reference table on one key column each. */
module Merge {
  import opened Wrappers
  import opened Seqs
  import opened Tables

  /** Suffix given to an incoming column whose name a base column already has. */
  const LookupSuffix := "_lookup"

  /** Text of the error raised when no requested column can be fetched. */
  const NoLookupColumnsMessage := "No valid lookup columns selected."

  /** Why a merge fails: nothing to fetch (a `ValueError` with the message
      above), a key column that does not exist (pandas raises `KeyError`), or
      suffixes that would give two incoming columns the same name (pandas
      raises `MergeError`). */
  datatype MergeError = NoLookupColumns(message: string) | KeyNotFound(column: string) | SuffixCollision

  /** The requested columns that the reference table has, other than its key,
      in request order. */
  function LookupColumns(valueCols: seq<string>, rightCols: seq<string>, rightKey: string): (r: seq<string>)
    ensures forall c :: multiset(r)[c] == if c in rightCols && c != rightKey then multiset(valueCols)[c] else 0
    ensures forall c :: c in r <==> c in valueCols && c in rightCols && c != rightKey
    ensures Subsequence(r, valueCols)
    ensures rightKey !in r
  {
    Filter(valueCols, c => c in rightCols && c != rightKey)
  }

  /** The reference table cut down to its key column followed by the lookup
      columns (`right_df[[right_key] + lookup_cols]`). */
  function TrimReference(right: Table, rightKey: string, lookup: seq<string>): (r: Table)
    requires WellFormed(right) && rightKey in right.columns
    requires forall c :: c in lookup ==> c in right.columns
    ensures WellFormed(r) && r.columns == [rightKey] + lookup && |r.rows| == |right.rows|
    ensures Column(r, 0) == Column(right, IndexOf(right.columns, rightKey))
    ensures forall i, j :: 0 <= i < |r.rows| && 0 <= j < |lookup| ==>
              r.rows[i][1 + j] == right.rows[i][IndexOf(right.columns, lookup[j])]
  {
    SelectByName(right, [rightKey] + lookup)
  }

  /** Keeps the first row of each key (column 0) and drops every later row
      with a key seen before (`drop_duplicates(subset=key, keep="first")`):
      no row is added, every kept row is a row of the input, and every key
      occurs once. */
  function DropDuplicateKeys(t: Table): (r: Table)
    requires WellFormed(t) && |t.columns| > 0
    ensures WellFormed(r) && r.columns == t.columns
    ensures |r.rows| <= |t.rows| && forall j :: 0 <= j < |r.rows| ==> r.rows[j] in t.rows
    ensures Distinct(Column(r, 0))
  {
    var keys := Column(t, 0);
    var idxs := Where(NotDuplicated(keys));
    IncreasingCard(idxs, |keys|);
    FirstOccurrencesDistinct(keys);
    var r := SelectRows(t, idxs);
    assert Column(r, 0) == Select(keys, idxs);
    r
  }

  /** Looking a key up after dropping rows with repeated keys finds the same
      row as in the full table: the first occurrence wins. */
  lemma DropDuplicateKeysSpec(t: Table, key: Cell)
    requires WellFormed(t) && |t.columns| > 0
    ensures FirstRowWithKey(DropDuplicateKeys(t), 0, key) == FirstRowWithKey(t, 0, key)
  {
    var keys := Column(t, 0);
    var idxs := Where(NotDuplicated(keys));
    var r := DropDuplicateKeys(t);
    var kept := Column(r, 0);
    assert kept == Select(keys, idxs);
    if key in keys {
      FirstOccurrenceKept(keys, key);
    } else {
      FirstOccurrenceOnly(keys, key);
    }
  }

  /** Increasing indices below `n` number at most `n`. */
  lemma {:induction false} IncreasingCard(idxs: seq<nat>, n: nat)
    requires Increasing(idxs) && InBounds(idxs, n)
    ensures |idxs| <= n
  {
    if idxs != [] {
      var last := |idxs| - 1;
      IncreasingCard(idxs[..last], idxs[last]);
    }
  }

  /** The incoming column names after pandas' `suffixes=("", "_lookup")`: a
      name the base table already has gets the suffix, the others stay. */
  function Suffixed(baseCols: seq<string>, cols: seq<string>): (r: seq<string>)
    ensures |r| == |cols|
    ensures forall j :: 0 <= j < |cols| ==> r[j] == cols[j] || r[j] == cols[j] + LookupSuffix
    ensures forall j :: 0 <= j < |cols| ==> (r[j] == cols[j] <==> cols[j] !in baseCols)
  {
    seq(|cols|, j requires 0 <= j < |cols| => if cols[j] in baseCols then cols[j] + LookupSuffix else cols[j])
  }

  /** The reference cells a base row with `key` receives: the first reference
      row with that key, or missing values when there is none. */
  function Matched(ref: Table, key: Cell): (cells: Row)
    requires WellFormed(ref) && |ref.columns| > 0
    ensures |cells| == |ref.columns|
  {
    match FirstRowWithKey(ref, 0, key)
    case Some(row) => row
    case None => seq(|ref.columns|, _ => Missing)
  }

  /** The left join (`how="left"`): every base row, in order, followed by the
      cells of its matching reference row (key in column 0). */
  function LeftJoin(left: Table, leftIdx: nat, ref: Table): (r: Table)
    requires WellFormed(left) && leftIdx < |left.columns|
    requires WellFormed(ref) && |ref.columns| > 0
    ensures WellFormed(r) && |r.rows| == |left.rows|
    ensures |r.columns| == |left.columns| + |ref.columns| && r.columns[..|left.columns|] == left.columns
    ensures forall i :: 0 <= i < |left.rows| ==> r.rows[i][..|left.columns|] == left.rows[i]
  {
    Table(left.columns + Suffixed(left.columns, ref.columns),
          seq(|left.rows|, i requires 0 <= i < |left.rows| => left.rows[i] + Matched(ref, left.rows[i][leftIdx])))
  }

  /** Drops every column called `name` (`drop(columns=[name])`): the name
      is gone and every other name stays. */
  function DropColumn(t: Table, name: string): (r: Table)
    requires WellFormed(t)
    ensures WellFormed(r) && |r.rows| == |t.rows|
    ensures name !in r.columns
    ensures forall c :: c != name ==> (c in r.columns <==> c in t.columns)
  {
    var mask := seq(|t.columns|, k requires 0 <= k < |t.columns| => t.columns[k] != name);
    var r := SelectColumns(t, Where(mask));
    KeepOthers(t.columns, name, mask, r.columns);
    r
  }

  /** Keeping the positions a mask marks, when it marks exactly the names
      other than `name`, keeps every such name and no `name`. */
  lemma KeepOthers(cols: seq<string>, name: string, mask: seq<bool>, kept: seq<string>)
    requires |mask| == |cols| && forall k :: 0 <= k < |cols| ==> (mask[k] <==> cols[k] != name)
    requires |kept| == |Where(mask)|
    requires forall j :: 0 <= j < |kept| ==> kept[j] == cols[Where(mask)[j]]
    ensures name !in kept
    ensures forall c :: c != name ==> (c in kept <==> c in cols)
  {
    var idxs := Where(mask);
    WhereComplete(mask);
    forall c | c != name && c in cols ensures c in kept {
      var k :| 0 <= k < |cols| && cols[k] == c;
      assert mask[k];
      var j :| 0 <= j < |idxs| && idxs[j] == k;
      assert kept[j] == c;
    }
  }

  /** When `name` labels exactly the column at `p`, dropping it removes that
      column and nothing else. */
  lemma DropColumnOnce(t: Table, name: string, p: nat)
    requires WellFormed(t) && p < |t.columns| && t.columns[p] == name
    requires forall k :: 0 <= k < |t.columns| && k != p ==> t.columns[k] != name
    ensures DropColumn(t, name).columns == t.columns[..p] + t.columns[p + 1..]
  {
    var mask := seq(|t.columns|, k requires 0 <= k < |t.columns| => t.columns[k] != name);
    WhereAllBut(mask, p);
    SkipAt(t.columns, Where(mask), p, DropColumn(t, name).columns);
  }

  /** ... and removes that column's cell from row `i`. */
  lemma DropColumnOnceRow(t: Table, name: string, p: nat, i: nat)
    requires WellFormed(t) && p < |t.columns| && t.columns[p] == name && i < |t.rows|
    requires forall k :: 0 <= k < |t.columns| && k != p ==> t.columns[k] != name
    ensures DropColumn(t, name).rows[i] == t.rows[i][..p] + t.rows[i][p + 1..]
  {
    var mask := seq(|t.columns|, k requires 0 <= k < |t.columns| => t.columns[k] != name);
    WhereAllBut(mask, p);
    SkipAt(t.rows[i], Where(mask), p, DropColumn(t, name).rows[i]);
  }

  /** Removes the reference key column after the join, but only when no base
      column has its name; otherwise the join is returned as it is. */
  function DropReferenceKey(joined: Table, baseCols: seq<string>, rightKey: string): (r: Table)
    requires WellFormed(joined)
    ensures WellFormed(r) && |r.rows| == |joined.rows|
    ensures rightKey !in baseCols ==> rightKey !in r.columns
    ensures forall c :: c in baseCols && c in joined.columns ==> c in r.columns
  {
    if rightKey in baseCols then joined
    else DropColumn(joined, rightKey)
  }

  /** The join proper, once the lookup columns are known and both keys
      exist: trim the reference table, keep its first row per key, left-join
      it to the base table, and drop the reference key column. */
  function Merged(left: Table, right: Table, leftKey: string, rightKey: string, lookup: seq<string>): (m: Table)
    requires WellFormed(left) && leftKey in left.columns
    requires WellFormed(right) && rightKey in right.columns
    requires forall c :: c in lookup ==> c in right.columns
    ensures WellFormed(m) && |m.rows| == |left.rows|
    ensures rightKey !in left.columns ==> rightKey !in m.columns
    ensures forall c :: c in left.columns ==> c in m.columns
  {
    var ref := DropDuplicateKeys(TrimReference(right, rightKey, lookup));
    var joined := LeftJoin(left, IndexOf(left.columns, leftKey), ref);
    DropReferenceKey(joined, left.columns, rightKey)
  }

  /** pandas (version 2) refuses suffixes that repeat a name among the
      incoming columns (the reference key, then the lookup columns): some
      incoming column's name, once suffixed, occurs earlier among the
      suffixed names although its own name does not occur earlier. */
  predicate SuffixesCollide(leftCols: seq<string>, rightKey: string, lookup: seq<string>)
  {
    var before := [rightKey] + lookup;
    var after := [rightKey] + Suffixed(leftCols, lookup);
    exists j :: 0 <= j < |before| && after[j] in after[..j] && before[j] !in before[..j]
  }

  /** The merge: fails when no requested column can be fetched, a key
      column does not exist, or the suffixes collide; otherwise joins. The
      source drops the reference key only when it is not a lookup column,
      which `LookupColumns` always guarantees; the reference key is not a
      base column name, so the drop always happens and removes exactly the
      reference key column. */
  function MergeFrames(left: Table, right: Table, leftKey: string, rightKey: string,
                       valueCols: seq<string>): (r: Result<Table, MergeError>)
    requires WellFormed(left) && Distinct(left.columns)
    requires WellFormed(right) && Distinct(right.columns)
    requires rightKey !in left.columns
    ensures r == Failure(NoLookupColumns(NoLookupColumnsMessage)) <==>
              LookupColumns(valueCols, right.columns, rightKey) == []
    ensures r == Failure(SuffixCollision) <==>
              && LookupColumns(valueCols, right.columns, rightKey) != []
              && rightKey in right.columns && leftKey in left.columns
              && SuffixesCollide(left.columns, rightKey, LookupColumns(valueCols, right.columns, rightKey))
    ensures r.Failure? <==>
              || LookupColumns(valueCols, right.columns, rightKey) == []
              || rightKey !in right.columns || leftKey !in left.columns
              || SuffixesCollide(left.columns, rightKey, LookupColumns(valueCols, right.columns, rightKey))
    ensures r.Success? ==> WellFormed(r.value) && |r.value.rows| == |left.rows|
    ensures r.Success? ==> rightKey !in r.value.columns
    ensures r.Success? ==> forall c :: c in left.columns ==> c in r.value.columns
  {
    var lookup := LookupColumns(valueCols, right.columns, rightKey);
    if lookup == [] then Failure(NoLookupColumns(NoLookupColumnsMessage))
    else if rightKey !in right.columns then Failure(KeyNotFound(rightKey))
    else if leftKey !in left.columns then Failure(KeyNotFound(leftKey))
    else if SuffixesCollide(left.columns, rightKey, lookup) then Failure(SuffixCollision)
    else Success(Merged(left, right, leftKey, rightKey, lookup))
  }

  /** When the suffixes do not collide, no suffixed lookup column takes the
      reference key's name. */
  lemma KeyNotSuffixed(leftCols: seq<string>, rightKey: string, lookup: seq<string>)
    requires rightKey !in lookup && !SuffixesCollide(leftCols, rightKey, lookup)
    ensures rightKey !in Suffixed(leftCols, lookup)
  {
    var before := [rightKey] + lookup;
    var after := [rightKey] + Suffixed(leftCols, lookup);
    forall m | 0 <= m < |lookup| ensures Suffixed(leftCols, lookup)[m] != rightKey {
      var suffixed := Suffixed(leftCols, lookup);
      var first := IndexOf(lookup, lookup[m]);
      assert suffixed[m] == suffixed[first];
      var j := first + 1;
      assert before[..j] == [rightKey] + lookup[..first];
      assert before[j] !in before[..j];
      assert after[j] !in after[..j];
      assert after[..j][0] == rightKey;
    }
  }

  /** A base table with columns K, x and a reference table with columns
      RK, x, x_lookup: fetching x and x_lookup would name both incoming
      columns "x_lookup", so the merge is refused. */
  lemma SuffixCollisionExample()
    ensures MergeFrames(Table(["K", "x"], []), Table(["RK", "x", "x_lookup"], []), "K", "RK",
                        ["x", "x_lookup"]) == Failure(SuffixCollision)
  {
    CollisionLookup();
    CollisionSuffixes();
  }

  /** Both requested columns are fetched there. */
  lemma CollisionLookup()
    ensures LookupColumns(["x", "x_lookup"], ["RK", "x", "x_lookup"], "RK") == ["x", "x_lookup"]
  {
    var valueCols: seq<string> := ["x", "x_lookup"];
    assert valueCols[1..] == ["x_lookup"] && valueCols[1..][1..] == [];
  }

  /** ... and both arrive as "x_lookup". */
  lemma CollisionSuffixes()
    ensures SuffixesCollide(["K", "x"], "RK", ["x", "x_lookup"])
  {
    var before: seq<string> := ["RK", "x", "x_lookup"];
    var after := ["RK"] + Suffixed(["K", "x"], ["x", "x_lookup"]);
    assert "x" + LookupSuffix == "x_lookup";
    assert after == ["RK", "x_lookup", "x_lookup"];
    assert after[..2] == ["RK", "x_lookup"] && before[..2] == ["RK", "x"];
    assert after[2] in after[..2] && before[2] !in before[..2];
  }

  /** A reference table keyed on "x_lookup" with a column x that the base
      table also has: x would arrive under the key's name, so the merge is
      refused. */
  lemma KeyCollisionExample()
    ensures MergeFrames(Table(["K", "x"], []), Table(["x_lookup", "x"], []), "K", "x_lookup",
                        ["x"]) == Failure(SuffixCollision)
  {
    var valueCols: seq<string> := ["x"];
    assert valueCols[1..] == [];
    assert LookupColumns(valueCols, ["x_lookup", "x"], "x_lookup") == ["x"];
    var before: seq<string> := ["x_lookup", "x"];
    var after := ["x_lookup"] + Suffixed(["K", "x"], ["x"]);
    assert "x" + LookupSuffix == "x_lookup";
    assert after == ["x_lookup", "x_lookup"];
    assert after[1] in after[..1] && before[1] !in before[..1];
  }

  /** What a base row whose key is `key` should receive, read straight off the
      reference table: the lookup columns of the FIRST reference row with that
      key, or a missing value in every lookup column when no row has it. */
  function Fetched(right: Table, rightKey: string, lookup: seq<string>, key: Cell): (cells: Row)
    requires WellFormed(right) && rightKey in right.columns
    requires forall c :: c in lookup ==> c in right.columns
    ensures |cells| == |lookup|
  {
    match FirstRowWithKey(right, IndexOf(right.columns, rightKey), key)
    case None => seq(|lookup|, _ => Missing)
    case Some(row) => seq(|lookup|, j requires 0 <= j < |lookup| => row[IndexOf(right.columns, lookup[j])])
  }

  /** Trimming and deduplicating the reference table does not change what a
      key fetches: after its key cell, the matched row is `Fetched`. */
  lemma MatchedIsFetched(right: Table, rightKey: string, lookup: seq<string>, key: Cell)
    requires WellFormed(right) && rightKey in right.columns
    requires forall c :: c in lookup ==> c in right.columns
    ensures var ref := DropDuplicateKeys(TrimReference(right, rightKey, lookup));
            Matched(ref, key)[1..] == Fetched(right, rightKey, lookup, key)
  {
    var trimmed := TrimReference(right, rightKey, lookup);
    var ref := DropDuplicateKeys(trimmed);
    var kR := IndexOf(right.columns, rightKey);
    DropDuplicateKeysSpec(trimmed, key);
    var col := Column(right, kR);
    assert Column(trimmed, 0) == col;
    if key in col {
      var p := IndexOf(col, key);
      assert FirstRowWithKey(trimmed, 0, key) == Some(trimmed.rows[p]);
      assert FirstRowWithKey(right, kR, key) == Some(right.rows[p]);
      var got := Matched(ref, key)[1..];
      var want := Fetched(right, rightKey, lookup, key);
      forall j | 0 <= j < |lookup| ensures got[j] == want[j] {
        assert got[j] == trimmed.rows[p][1 + j];
      }
    }
  }

  /** In the joined table the reference key labels the first incoming column
      and no other. */
  lemma JoinedKeyOnce(left: Table, rightKey: string, lookup: seq<string>, keyAt: nat, ref: Table)
    requires WellFormed(left) && keyAt < |left.columns|
    requires WellFormed(ref) && ref.columns == [rightKey] + lookup
    requires rightKey !in left.columns && rightKey !in lookup
    requires rightKey !in Suffixed(left.columns, lookup)
    ensures var joined := LeftJoin(left, keyAt, ref);
            && joined.columns == left.columns + [rightKey] + Suffixed(left.columns, lookup)
            && forall k :: 0 <= k < |joined.columns| && k != |left.columns| ==> joined.columns[k] != rightKey
  {
    var joined := LeftJoin(left, keyAt, ref);
    var L := |left.columns|;
    assert Suffixed(left.columns, ref.columns) == [rightKey] + Suffixed(left.columns, lookup);
    forall k | 0 <= k < |joined.columns| && k != L ensures joined.columns[k] != rightKey {
      if k > L {
        assert lookup[k - L - 1] in lookup;
      }
    }
  }

  /** Row `i` of the joined table is the base row, then the matched cells. */
  lemma JoinedRow(left: Table, keyAt: nat, ref: Table, i: nat)
    requires WellFormed(left) && keyAt < |left.columns| && i < |left.rows|
    requires WellFormed(ref) && |ref.columns| > 0
    ensures var row := LeftJoin(left, keyAt, ref).rows[i];
            var L := |left.columns|;
            && row[..L] == left.rows[i]
            && row[L + 1..] == Matched(ref, left.rows[i][keyAt])[1..]
  {
    var row := LeftJoin(left, keyAt, ref).rows[i];
    assert row == left.rows[i] + Matched(ref, left.rows[i][keyAt]);
  }

  /** When the reference key is not a base column name, the join drops its
      column unconditionally. */
  lemma MergedIsDrop(left: Table, right: Table, leftKey: string, rightKey: string, lookup: seq<string>)
    requires WellFormed(left) && leftKey in left.columns
    requires WellFormed(right) && rightKey in right.columns
    requires forall c :: c in lookup ==> c in right.columns
    requires rightKey !in left.columns
    ensures var ref := DropDuplicateKeys(TrimReference(right, rightKey, lookup));
            Merged(left, right, leftKey, rightKey, lookup) ==
            DropColumn(LeftJoin(left, IndexOf(left.columns, leftKey), ref), rightKey)
  {
  }

  /** The join read against the reference definition: the base columns
      followed by the (suffixed) lookup columns; one row per base row, in base
      order, each holding its base cells unchanged followed by what its key
      fetches from the first matching reference row. */
  lemma MergedSpec(left: Table, right: Table, leftKey: string, rightKey: string, lookup: seq<string>)
    requires WellFormed(left) && leftKey in left.columns
    requires WellFormed(right) && rightKey in right.columns
    requires forall c :: c in lookup ==> c in right.columns
    requires rightKey !in left.columns && rightKey !in lookup
    requires rightKey !in Suffixed(left.columns, lookup)
    ensures var m := Merged(left, right, leftKey, rightKey, lookup);
            var keyAt := IndexOf(left.columns, leftKey);
            && m.columns == left.columns + Suffixed(left.columns, lookup)
            && |m.rows| == |left.rows|
            && forall i :: 0 <= i < |left.rows| ==>
                 m.rows[i] == left.rows[i] + Fetched(right, rightKey, lookup, left.rows[i][keyAt])
  {
    MergedColumns(left, right, leftKey, rightKey, lookup);
    MergedRows(left, right, leftKey, rightKey, lookup);
  }

  /** The columns of the join: base columns, then suffixed lookup columns. */
  lemma MergedColumns(left: Table, right: Table, leftKey: string, rightKey: string, lookup: seq<string>)
    requires WellFormed(left) && leftKey in left.columns
    requires WellFormed(right) && rightKey in right.columns
    requires forall c :: c in lookup ==> c in right.columns
    requires rightKey !in left.columns && rightKey !in lookup
    requires rightKey !in Suffixed(left.columns, lookup)
    ensures Merged(left, right, leftKey, rightKey, lookup).columns == left.columns + Suffixed(left.columns, lookup)
  {
    var keyAt := IndexOf(left.columns, leftKey);
    var ref := DropDuplicateKeys(TrimReference(right, rightKey, lookup));
    var joined := LeftJoin(left, keyAt, ref);
    MergedIsDrop(left, right, leftKey, rightKey, lookup);
    JoinedKeyOnce(left, rightKey, lookup, keyAt, ref);
    DropColumnOnce(joined, rightKey, |left.columns|);
  }

  /** The rows of the join: each base row followed by what its key fetches. */
  lemma MergedRows(left: Table, right: Table, leftKey: string, rightKey: string, lookup: seq<string>)
    requires WellFormed(left) && leftKey in left.columns
    requires WellFormed(right) && rightKey in right.columns
    requires forall c :: c in lookup ==> c in right.columns
    requires rightKey !in left.columns && rightKey !in lookup
    requires rightKey !in Suffixed(left.columns, lookup)
    ensures var m := Merged(left, right, leftKey, rightKey, lookup);
            var keyAt := IndexOf(left.columns, leftKey);
            forall i :: 0 <= i < |left.rows| ==>
              m.rows[i] == left.rows[i] + Fetched(right, rightKey, lookup, left.rows[i][keyAt])
  {
    forall i | 0 <= i < |left.rows|
      ensures Merged(left, right, leftKey, rightKey, lookup).rows[i] ==
              left.rows[i] + Fetched(right, rightKey, lookup, left.rows[i][IndexOf(left.columns, leftKey)])
    {
      MergedRow(left, right, leftKey, rightKey, lookup, i);
    }
  }

  /** Row `i` of the join. */
  lemma MergedRow(left: Table, right: Table, leftKey: string, rightKey: string, lookup: seq<string>, i: nat)
    requires WellFormed(left) && leftKey in left.columns && i < |left.rows|
    requires WellFormed(right) && rightKey in right.columns
    requires forall c :: c in lookup ==> c in right.columns
    requires rightKey !in left.columns && rightKey !in lookup
    requires rightKey !in Suffixed(left.columns, lookup)
    ensures Merged(left, right, leftKey, rightKey, lookup).rows[i] ==
            left.rows[i] + Fetched(right, rightKey, lookup, left.rows[i][IndexOf(left.columns, leftKey)])
  {
    var keyAt := IndexOf(left.columns, leftKey);
    var ref := DropDuplicateKeys(TrimReference(right, rightKey, lookup));
    MergedIsDrop(left, right, leftKey, rightKey, lookup);
    JoinDropRow(left, keyAt, ref, rightKey, lookup, i);
    MatchedIsFetched(right, rightKey, lookup, left.rows[i][keyAt]);
  }

  /** Row `i` of the join once the reference key column is dropped: the base
      row, then the matched cells after the key cell. */
  lemma JoinDropRow(left: Table, keyAt: nat, ref: Table, rightKey: string, lookup: seq<string>, i: nat)
    requires WellFormed(left) && keyAt < |left.columns| && i < |left.rows|
    requires WellFormed(ref) && ref.columns == [rightKey] + lookup
    requires rightKey !in left.columns && rightKey !in lookup
    requires rightKey !in Suffixed(left.columns, lookup)
    ensures DropColumn(LeftJoin(left, keyAt, ref), rightKey).rows[i] ==
            left.rows[i] + Matched(ref, left.rows[i][keyAt])[1..]
  {
    JoinedKeyOnce(left, rightKey, lookup, keyAt, ref);
    DropColumnOnceRow(LeftJoin(left, keyAt, ref), rightKey, |left.columns|, i);
    JoinedRow(left, keyAt, ref, i);
  }

  /** `MergedSpec` for a merge that succeeds. */
  lemma MergeFramesSpec(left: Table, right: Table, leftKey: string, rightKey: string, valueCols: seq<string>)
    requires WellFormed(left) && Distinct(left.columns)
    requires WellFormed(right) && Distinct(right.columns)
    requires rightKey !in left.columns
    requires MergeFrames(left, right, leftKey, rightKey, valueCols).Success?
    ensures var m := MergeFrames(left, right, leftKey, rightKey, valueCols).value;
            var lookup := LookupColumns(valueCols, right.columns, rightKey);
            var keyAt := IndexOf(left.columns, leftKey);
            && m.columns == left.columns + Suffixed(left.columns, lookup)
            && |m.rows| == |left.rows|
            && forall i :: 0 <= i < |left.rows| ==>
                 m.rows[i] == left.rows[i] + Fetched(right, rightKey, lookup, left.rows[i][keyAt])
  {
    var lookup := LookupColumns(valueCols, right.columns, rightKey);
    KeyNotSuffixed(left.columns, rightKey, lookup);
    MergedSpec(left, right, leftKey, rightKey, lookup);
  }

  /** First match wins: when reference row `p` is the first whose key equals
      base row `i`'s key, row `i` receives row `p`'s lookup values, whatever
      later rows with that key hold. */
  lemma MergeFirstMatchWins(left: Table, right: Table, leftKey: string, rightKey: string,
                            valueCols: seq<string>, i: nat, p: nat)
    requires WellFormed(left) && Distinct(left.columns)
    requires WellFormed(right) && Distinct(right.columns)
    requires rightKey !in left.columns
    requires MergeFrames(left, right, leftKey, rightKey, valueCols).Success?
    requires i < |left.rows| && p < |right.rows|
    requires right.rows[p][IndexOf(right.columns, rightKey)] == left.rows[i][IndexOf(left.columns, leftKey)]
    requires forall q :: 0 <= q < p ==>
               right.rows[q][IndexOf(right.columns, rightKey)] != right.rows[p][IndexOf(right.columns, rightKey)]
    ensures var m := MergeFrames(left, right, leftKey, rightKey, valueCols).value;
            var lookup := LookupColumns(valueCols, right.columns, rightKey);
            m.rows[i] == left.rows[i] +
              seq(|lookup|, j requires 0 <= j < |lookup| => right.rows[p][IndexOf(right.columns, lookup[j])])
  {
    MergeFramesSpec(left, right, leftKey, rightKey, valueCols);
    var key := left.rows[i][IndexOf(left.columns, leftKey)];
    FirstRowWithKeyAt(right, IndexOf(right.columns, rightKey), key, p);
  }

  /** A base row whose key no reference row has receives a missing value in
      every fetched column. */
  lemma MergeUnmatchedMissing(left: Table, right: Table, leftKey: string, rightKey: string,
                              valueCols: seq<string>, i: nat)
    requires WellFormed(left) && Distinct(left.columns)
    requires WellFormed(right) && Distinct(right.columns)
    requires rightKey !in left.columns
    requires MergeFrames(left, right, leftKey, rightKey, valueCols).Success?
    requires i < |left.rows|
    requires forall q :: 0 <= q < |right.rows| ==>
               right.rows[q][IndexOf(right.columns, rightKey)] != left.rows[i][IndexOf(left.columns, leftKey)]
    ensures var m := MergeFrames(left, right, leftKey, rightKey, valueCols).value;
            var lookup := LookupColumns(valueCols, right.columns, rightKey);
            m.rows[i] == left.rows[i] + seq(|lookup|, _ => Missing)
  {
    MergeFramesSpec(left, right, leftKey, rightKey, valueCols);
    var key := left.rows[i][IndexOf(left.columns, leftKey)];
    FirstRowWithKeyNone(right, IndexOf(right.columns, rightKey), key);
  }

  /** No base column is overwritten: a fetched column whose name a base
      column has arrives as that name plus "_lookup", while the name itself
      still labels the base column at its original position. */
  lemma MergeRenamesCollisions(left: Table, right: Table, leftKey: string, rightKey: string,
                               valueCols: seq<string>, c: string)
    requires WellFormed(left) && Distinct(left.columns)
    requires WellFormed(right) && Distinct(right.columns)
    requires rightKey !in left.columns
    requires MergeFrames(left, right, leftKey, rightKey, valueCols).Success?
    requires c in LookupColumns(valueCols, right.columns, rightKey) && c in left.columns
    ensures var m := MergeFrames(left, right, leftKey, rightKey, valueCols).value;
            && c + LookupSuffix in m.columns
            && IndexOf(m.columns, c) == IndexOf(left.columns, c)
  {
    var lookup := LookupColumns(valueCols, right.columns, rightKey);
    KeyNotSuffixed(left.columns, rightKey, lookup);
    MergedColumns(left, right, leftKey, rightKey, lookup);
    SuffixedKeepsBase(left.columns, lookup, c);
  }

  /** Appending the suffixed names leaves each base name at its first
      position, and a colliding name appears with the suffix. */
  lemma SuffixedKeepsBase(baseCols: seq<string>, cols: seq<string>, c: string)
    requires c in baseCols && c in cols
    ensures var all := baseCols + Suffixed(baseCols, cols);
            c + LookupSuffix in all && IndexOf(all, c) == IndexOf(baseCols, c)
  {
    var all := baseCols + Suffixed(baseCols, cols);
    var j := IndexOf(cols, c);
    assert all[|baseCols| + j] == c + LookupSuffix;
    var k := IndexOf(baseCols, c);
    assert all[..k] == baseCols[..k];
    IndexOfUnique(all, c, k);
  }
}
