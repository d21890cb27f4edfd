/** The "Run lookup" action: merge the two tables, then move the fetched
    columns to the chosen place among the base columns. */
module Pipeline {
  import opened Wrappers
  import opened Seqs
  import opened Tables
  import opened Merge
  import opened Ordering

  /** Why a lookup fails: the merge refused, the anchor column is unknown,
      or some ordered names label no column of the merged table (pandas
      raises `KeyError` when selecting them). */
  datatype LookupError =
    | MergeFailed(mergeError: MergeError)
    | OrderFailed(orderError: OrderError)
    | ColumnsMissing(names: seq<string>)

  /** The merged columns the base table does not have, in merged order. */
  function NewColumns(mergedCols: seq<string>, baseCols: seq<string>): (r: seq<string>)
    ensures forall c :: c in r <==> c in mergedCols && c !in baseCols
    ensures forall c :: multiset(r)[c] == if c in baseCols then 0 else multiset(mergedCols)[c]
    ensures Subsequence(r, mergedCols)
  {
    FilterMembers(mergedCols, c => c !in baseCols);
    Filter(mergedCols, c => c !in baseCols)
  }

  /** After the merge: find the new columns, order them among the base
      columns and select the merged table's columns in that order. The
      selection fails exactly when some base column is no longer in the
      merged table. */
  function ArrangeColumns(merged: Table, baseCols: seq<string>, insertAfter: string): (r: Result<Table, LookupError>)
    requires WellFormed(merged)
    ensures InsertionIndex(baseCols, insertAfter).Failure? ==>
              r == Failure(OrderFailed(AnchorNotFound(insertAfter)))
    ensures InsertionIndex(baseCols, insertAfter).Success? ==>
              (r.Success? <==> forall c :: c in baseCols ==> c in merged.columns)
    ensures r.Failure? && r.error.ColumnsMissing? ==>
              forall c :: c in r.error.names <==> c in baseCols && c !in merged.columns
    ensures r.Success? ==>
              && OrderColumns(baseCols, NewColumns(merged.columns, baseCols), insertAfter).Success?
              && r.value.columns == OrderColumns(baseCols, NewColumns(merged.columns, baseCols), insertAfter).value
              && multiset(r.value.columns) == multiset(baseCols) + multiset(NewColumns(merged.columns, baseCols))
    ensures r.Success? ==>
              && WellFormed(r.value) && |r.value.rows| == |merged.rows|
              && (forall c :: c in r.value.columns ==> c in merged.columns)
              && CellsByName(r.value, merged)
  {
    var newCols := NewColumns(merged.columns, baseCols);
    var order := OrderColumns(baseCols, newCols, insertAfter);
    if order.Failure? then Failure(OrderFailed(order.error))
    else
      OrderedPresent(merged.columns, baseCols, insertAfter);
      var selected := SelectNamed(merged, order.value);
      if selected.Failure? then Failure(ColumnsMissing(selected.error)) else Success(selected.value)
  }

  /** Every ordered name labels a merged column exactly when every base name
      does: the other ordered names are merged names already. */
  lemma OrderedPresent(mergedCols: seq<string>, baseCols: seq<string>, insertAfter: string)
    requires OrderColumns(baseCols, NewColumns(mergedCols, baseCols), insertAfter).Success?
    ensures var ordered := OrderColumns(baseCols, NewColumns(mergedCols, baseCols), insertAfter).value;
            (forall c :: c in ordered ==> c in mergedCols) <==> (forall c :: c in baseCols ==> c in mergedCols)
  {
    OrderColumnsMembers(baseCols, NewColumns(mergedCols, baseCols), insertAfter);
  }

  /** The "Run lookup" action: merge, then arrange the columns. */
  function RunLookup(left: Table, right: Table, leftKey: string, rightKey: string,
                     valueCols: seq<string>, insertAfter: string): (r: Result<Table, LookupError>)
    requires WellFormed(left) && Distinct(left.columns)
    requires WellFormed(right) && Distinct(right.columns)
    requires rightKey !in left.columns
    ensures MergeFrames(left, right, leftKey, rightKey, valueCols).Failure? ==>
              r == Failure(MergeFailed(MergeFrames(left, right, leftKey, rightKey, valueCols).error))
    ensures MergeFrames(left, right, leftKey, rightKey, valueCols).Success? ==>
              (r.Failure? <==> InsertionIndex(left.columns, insertAfter).Failure?)
    ensures r.Failure? ==> r.error.MergeFailed? || r.error == OrderFailed(AnchorNotFound(insertAfter))
    ensures r.Success? ==> WellFormed(r.value) && |r.value.rows| == |left.rows|
  {
    match MergeFrames(left, right, leftKey, rightKey, valueCols)
    case Failure(e) => Failure(MergeFailed(e))
    case Success(merged) => ArrangeColumns(merged, left.columns, insertAfter)
  }

  /** As written, the reference key column is dropped by name even when a base
      column has that name: whatever the join produced, that base column is
      then gone and the final selection fails. */
  lemma KeyNameClashFails(joined: Table, baseCols: seq<string>, rightKey: string, insertAfter: string)
    requires WellFormed(joined) && rightKey in baseCols
    requires InsertionIndex(baseCols, insertAfter).Success?
    ensures var r := ArrangeColumns(DropColumn(joined, rightKey), baseCols, insertAfter);
            r.Failure? && r.error.ColumnsMissing? && rightKey in r.error.names
  {
  }

  /** Dropping the reference key only when no base column has its name keeps
      every base column, so the lookup succeeds whenever the anchor exists,
      and the reference key survives only as a base column. */
  lemma GuardedDropKeepsBase(joined: Table, baseCols: seq<string>, rightKey: string, insertAfter: string)
    requires WellFormed(joined) && forall c :: c in baseCols ==> c in joined.columns
    ensures var r := ArrangeColumns(DropReferenceKey(joined, baseCols, rightKey), baseCols, insertAfter);
            && (r.Success? <==> InsertionIndex(baseCols, insertAfter).Success?)
            && (r.Success? ==> (rightKey in r.value.columns ==> rightKey in baseCols))
  {
    var dropped := DropReferenceKey(joined, baseCols, rightKey);
    var r := ArrangeColumns(dropped, baseCols, insertAfter);
    if r.Success? {
      assert forall c :: c in r.value.columns <==> multiset(r.value.columns)[c] > 0;
    }
  }

  /** The anchor is offered among "(At beginning)", the base columns and
      "(At end)", so ordering never fails. */
  lemma OfferedAnchorNeverFails(left: Table, right: Table, leftKey: string, rightKey: string,
                                valueCols: seq<string>, insertAfter: string)
    requires WellFormed(left) && Distinct(left.columns)
    requires WellFormed(right) && Distinct(right.columns)
    requires rightKey !in left.columns
    requires insertAfter in [AtBeginning] + left.columns + [AtEnd]
    ensures RunLookup(left, right, leftKey, rightKey, valueCols, insertAfter).Failure? ==>
              RunLookup(left, right, leftKey, rightKey, valueCols, insertAfter).error.MergeFailed?
  {
    assert insertAfter == AtBeginning || insertAfter in left.columns || insertAfter == AtEnd;
  }

  /** No name clash: the base names and the (suffixed) fetched names are all
      different. */
  predicate NoNameClash(baseCols: seq<string>, lookup: seq<string>)
  {
    Distinct(baseCols + Suffixed(baseCols, lookup))
  }

  /** The result of a lookup read against the reference definition: the
      base columns with the fetched block spliced in at the insertion index,
      and each base row with what its key fetches spliced in at that index,
      its own cells unchanged and in order. */
  lemma RunLookupSpec(left: Table, right: Table, leftKey: string, rightKey: string,
                      valueCols: seq<string>, insertAfter: string)
    requires WellFormed(left) && Distinct(left.columns)
    requires WellFormed(right) && Distinct(right.columns)
    requires rightKey !in left.columns
    requires NoNameClash(left.columns, LookupColumns(valueCols, right.columns, rightKey))
    requires RunLookup(left, right, leftKey, rightKey, valueCols, insertAfter).Success?
    ensures var t := RunLookup(left, right, leftKey, rightKey, valueCols, insertAfter).value;
            var lookup := LookupColumns(valueCols, right.columns, rightKey);
            var k := InsertionIndex(left.columns, insertAfter).value;
            var keyAt := IndexOf(left.columns, leftKey);
            && t.columns == left.columns[..k] + Suffixed(left.columns, lookup) + left.columns[k..]
            && |t.rows| == |left.rows|
            && forall i :: 0 <= i < |left.rows| ==>
                 t.rows[i] == left.rows[i][..k] + Fetched(right, rightKey, lookup, left.rows[i][keyAt]) + left.rows[i][k..]
  {
    var lookup := LookupColumns(valueCols, right.columns, rightKey);
    var merged := MergeFrames(left, right, leftKey, rightKey, valueCols).value;
    var added := Suffixed(left.columns, lookup);
    var k := InsertionIndex(left.columns, insertAfter).value;
    var keyAt := IndexOf(left.columns, leftKey);
    RunLookupShape(left, right, leftKey, rightKey, valueCols, insertAfter);
    MergeFramesSpec(left, right, leftKey, rightKey, valueCols);
    forall i | 0 <= i < |left.rows|
      ensures SelectByName(merged, left.columns[..k] + added + left.columns[k..]).rows[i] ==
              left.rows[i][..k] + Fetched(right, rightKey, lookup, left.rows[i][keyAt]) + left.rows[i][k..]
    {
      SelectSpliced(merged, left.columns, added, k, i, left.rows[i], Fetched(right, rightKey, lookup, left.rows[i][keyAt]));
    }
  }

  /** A successful lookup selects, out of the merged table, the base names
      with the fetched names spliced in at the insertion index. */
  lemma RunLookupShape(left: Table, right: Table, leftKey: string, rightKey: string,
                       valueCols: seq<string>, insertAfter: string)
    requires WellFormed(left) && Distinct(left.columns)
    requires WellFormed(right) && Distinct(right.columns)
    requires rightKey !in left.columns
    requires NoNameClash(left.columns, LookupColumns(valueCols, right.columns, rightKey))
    requires RunLookup(left, right, leftKey, rightKey, valueCols, insertAfter).Success?
    ensures var merged := MergeFrames(left, right, leftKey, rightKey, valueCols).value;
            var added := Suffixed(left.columns, LookupColumns(valueCols, right.columns, rightKey));
            var k := InsertionIndex(left.columns, insertAfter).value;
            && merged.columns == left.columns + added
            && (forall c :: c in left.columns[..k] + added + left.columns[k..] ==> c in merged.columns)
            && RunLookup(left, right, leftKey, rightKey, valueCols, insertAfter).value ==
               SelectByName(merged, left.columns[..k] + added + left.columns[k..])
  {
    var lookup := LookupColumns(valueCols, right.columns, rightKey);
    var merged := MergeFrames(left, right, leftKey, rightKey, valueCols).value;
    var added := Suffixed(left.columns, lookup);
    assert merged == Merged(left, right, leftKey, rightKey, lookup);
    KeyNotSuffixed(left.columns, rightKey, lookup);
    MergedColumns(left, right, leftKey, rightKey, lookup);
    NewColumnsAreFetched(left.columns, added);
    OrderColumnsSplice(left.columns, added, insertAfter);
    assert RunLookup(left, right, leftKey, rightKey, valueCols, insertAfter) ==
           ArrangeColumns(merged, left.columns, insertAfter);
    ArrangeShape(merged, left.columns, insertAfter);
  }

  /** A successful arrangement selects the ordered names. */
  lemma ArrangeShape(merged: Table, baseCols: seq<string>, insertAfter: string)
    requires WellFormed(merged) && ArrangeColumns(merged, baseCols, insertAfter).Success?
    ensures var ordered := OrderColumns(baseCols, NewColumns(merged.columns, baseCols), insertAfter);
            && ordered.Success?
            && (forall c :: c in ordered.value ==> c in merged.columns)
            && ArrangeColumns(merged, baseCols, insertAfter).value == SelectByName(merged, ordered.value)
  {
    var ordered := OrderColumns(baseCols, NewColumns(merged.columns, baseCols), insertAfter).value;
    FilterMembers(ordered, c => c !in merged.columns);
    assert SelectNamed(merged, ordered).Success?;
  }

  /** Selecting the spliced names out of a table whose columns are `a + b`
      splices the cells of each row the same way. */
  lemma SelectSpliced(t: Table, a: seq<string>, b: seq<string>, k: nat, i: nat, x: Row, y: Row)
    requires WellFormed(t) && t.columns == a + b && Distinct(a + b) && k <= |a|
    requires i < |t.rows| && t.rows[i] == x + y && |x| == |a|
    ensures var spliced := a[..k] + b + a[k..];
            (forall c :: c in spliced ==> c in t.columns) &&
            SelectByName(t, spliced).rows[i] == x[..k] + y + x[k..]
  {
    var spliced := a[..k] + b + a[k..];
    assert a == a[..k] + a[k..];
    assert forall c :: c in spliced ==> c in a || c in b;
    SpliceSelect(a, b, k, x, y);
    var r := SelectByName(t, spliced);
    var want := Select(x + y, Positions(a + b, spliced));
    forall j | 0 <= j < |spliced| ensures r.rows[i][j] == want[j] {
    }
  }

  /** When the added names avoid the base names, they are exactly the new
      columns of the merged table. */
  lemma NewColumnsAreFetched(baseCols: seq<string>, added: seq<string>)
    requires Distinct(baseCols + added)
    ensures NewColumns(baseCols + added, baseCols) == added
  {
    forall c | c in added ensures c !in baseCols {
      var j :| 0 <= j < |added| && added[j] == c;
      assert (baseCols + added)[|baseCols| + j] == c;
      forall q | 0 <= q < |baseCols| ensures baseCols[q] != c {
        assert (baseCols + added)[q] == baseCols[q];
      }
    }
    FilterSecond(baseCols, added, c => c !in baseCols);
  }
}
