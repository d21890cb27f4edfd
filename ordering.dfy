/** `order_columns`: where the fetched columns go among the base columns. */
module Ordering {
  import opened Wrappers
  import opened Seqs

  /** The two choices that are not column names. */
  const AtBeginning := "(At beginning)"
  const AtEnd := "(At end)"

  /** The anchor names no base column (`list.index` raises `ValueError`). */
  datatype OrderError = AnchorNotFound(anchor: string)

  /** Where the new columns start: before everything, after everything, or
      right after the first base column named `insertAfter`. */
  function InsertionIndex(baseCols: seq<string>, insertAfter: string): (r: Result<nat, OrderError>)
    ensures insertAfter == AtBeginning ==> r == Success(0)
    ensures insertAfter != AtBeginning && insertAfter == AtEnd ==> r == Success(|baseCols|)
    ensures insertAfter != AtBeginning && insertAfter != AtEnd ==>
              (r.Success? <==> insertAfter in baseCols)
    ensures insertAfter != AtBeginning && insertAfter != AtEnd && r.Success? ==>
              1 <= r.value <= |baseCols| && baseCols[r.value - 1] == insertAfter &&
              insertAfter !in baseCols[..r.value - 1]
    ensures r.Success? ==> r.value <= |baseCols|
    ensures r.Failure? ==> r.error == AnchorNotFound(insertAfter)
  {
    if insertAfter == AtBeginning then Success(0)
    else if insertAfter == AtEnd then Success(|baseCols|)
    else if insertAfter in baseCols then Success(IndexOf(baseCols, insertAfter) + 1)
    else Failure(AnchorNotFound(insertAfter))
  }

  /** The base columns with the new columns spliced in as one block at the
      insertion index: the block is intact, taking it out restores the base
      columns, and no column is lost or repeated. */
  function OrderColumns(baseCols: seq<string>, newCols: seq<string>, insertAfter: string): (r: Result<seq<string>, OrderError>)
    ensures r.Failure? <==> InsertionIndex(baseCols, insertAfter).Failure?
    ensures r.Failure? ==> r.error == AnchorNotFound(insertAfter)
    ensures r.Success? ==>
              var i := InsertionIndex(baseCols, insertAfter).value;
              && |r.value| == |baseCols| + |newCols|
              && r.value[i..i + |newCols|] == newCols
              && r.value[..i] + r.value[i + |newCols|..] == baseCols
              && multiset(r.value) == multiset(baseCols) + multiset(newCols)
  {
    match InsertionIndex(baseCols, insertAfter)
    case Failure(e) => Failure(e)
    case Success(i) =>
      var r := baseCols[..i] + newCols + baseCols[i..];
      assert r[..i] == baseCols[..i] && r[i + |newCols|..] == baseCols[i..];
      assert r[i..i + |newCols|] == newCols;
      assert baseCols == baseCols[..i] + baseCols[i..];
      Success(r)
  }

  /** The ordered names are the base names with the block spliced in. */
  lemma OrderColumnsSplice(baseCols: seq<string>, newCols: seq<string>, insertAfter: string)
    requires OrderColumns(baseCols, newCols, insertAfter).Success?
    ensures var k := InsertionIndex(baseCols, insertAfter).value;
            OrderColumns(baseCols, newCols, insertAfter).value == baseCols[..k] + newCols + baseCols[k..]
  {
    var r := OrderColumns(baseCols, newCols, insertAfter).value;
    var k := InsertionIndex(baseCols, insertAfter).value;
    var n := |newCols|;
    assert baseCols[..k] == (r[..k] + r[k + n..])[..k] == r[..k];
    assert baseCols[k..] == (r[..k] + r[k + n..])[k..] == r[k + n..];
    assert r == r[..k] + r[k..k + n] + r[k + n..];
  }

  /** The ordered names are the base names and the new names, nothing else. */
  lemma OrderColumnsMembers(baseCols: seq<string>, newCols: seq<string>, insertAfter: string)
    requires OrderColumns(baseCols, newCols, insertAfter).Success?
    ensures forall c :: c in OrderColumns(baseCols, newCols, insertAfter).value <==> c in baseCols || c in newCols
  {
    var r := OrderColumns(baseCols, newCols, insertAfter).value;
    assert forall c :: c in r <==> multiset(r)[c] > 0;
    assert forall c :: c in baseCols <==> multiset(baseCols)[c] > 0;
    assert forall c :: c in newCols <==> multiset(newCols)[c] > 0;
  }

  /** Inserting after "A" in A, B, C gives A, X, Y, B, C. */
  lemma OrderAfterExample()
    ensures OrderColumns(["A", "B", "C"], ["X", "Y"], "A") == Success(["A", "X", "Y", "B", "C"])
  {
    assert IndexOf(["A", "B", "C"], "A") == 0;
    assert InsertionIndex(["A", "B", "C"], "A") == Success(1);
    OrderColumnsSplice(["A", "B", "C"], ["X", "Y"], "A");
    var base: seq<string> := ["A", "B", "C"];
    assert base[..1] == ["A"];
    assert base[1..] == ["B", "C"];
    assert ["A"] + ["X", "Y"] + ["B", "C"] == ["A", "X", "Y", "B", "C"];
  }

  /** An anchor that is not among A, B, C is refused. */
  lemma OrderMissingAnchorExample()
    ensures OrderColumns(["A", "B", "C"], ["X", "Y"], "Z") == Failure(AnchorNotFound("Z"))
  {
    assert "Z" !in ["A", "B", "C"];
  }
}
