/** Sequence facts shared by the loader, the merge and the column ordering:
    distinctness, first index, filtering, and boolean-mask positions. */
module Seqs {

  /** No element occurs twice. */
  predicate Distinct<T(==)>(s: seq<T>)
  {
    forall i, j :: 0 <= i < j < |s| ==> s[i] != s[j]
  }

  /** The position of the first occurrence of `x` (Python's `list.index`). */
  function IndexOf<T(==)>(s: seq<T>, x: T): (i: nat)
    requires x in s
    ensures i < |s| && s[i] == x && x !in s[..i]
  {
    if s[0] == x then 0
    else
      var i := 1 + IndexOf(s[1..], x);
      assert s[..i] == [s[0]] + s[1..][..i - 1];
      i
  }

  /** A position holding `x` with no earlier `x` is the one `IndexOf` finds. */
  lemma IndexOfUnique<T>(s: seq<T>, x: T, k: nat)
    requires k < |s| && s[k] == x && x !in s[..k]
    ensures IndexOf(s, x) == k
  {
    var i := IndexOf(s, x);
    assert forall j :: 0 <= j < k ==> s[..k][j] == s[j];
    assert forall j :: 0 <= j < i ==> s[..i][j] == s[j];
  }

  /** `a` can be obtained from `b` by deleting elements. */
  predicate Subsequence<T(==)>(a: seq<T>, b: seq<T>)
    decreases |b|
  {
    a == [] ||
    (b != [] && ((a[0] == b[0] && Subsequence(a[1..], b[1..])) || Subsequence(a, b[1..])))
  }

  /** The elements of `s` satisfying `p`, in their order (a Python list
      comprehension with an `if` clause). */
  function Filter<T(==, !new)>(s: seq<T>, p: T -> bool): (r: seq<T>)
    ensures forall x :: multiset(r)[x] == if p(x) then multiset(s)[x] else 0
    ensures Subsequence(r, s)
  {
    if s == [] then []
    else
      var rest := Filter(s[1..], p);
      assert s == [s[0]] + s[1..];
      if p(s[0]) then
        [s[0]] + rest
      else
        rest
  }

  /** An element is kept exactly when it occurs and passes the test. */
  lemma FilterMembers<T(!new)>(s: seq<T>, p: T -> bool)
    ensures forall x :: x in Filter(s, p) <==> x in s && p(x)
  {
    var r := Filter(s, p);
    assert forall x :: x in r <==> multiset(r)[x] > 0;
    assert forall x :: x in s <==> multiset(s)[x] > 0;
  }

  /** Indices listed in ascending order. */
  predicate Increasing(idxs: seq<nat>)
  {
    forall a, b :: 0 <= a < b < |idxs| ==> idxs[a] < idxs[b]
  }

  /** The positions at which `mask` holds, in ascending order: what a pandas
      boolean mask selects. */
  function Where(mask: seq<bool>): (idxs: seq<nat>)
    ensures Increasing(idxs)
    ensures forall j :: 0 <= j < |idxs| ==> idxs[j] < |mask| && mask[idxs[j]]
  {
    if mask == [] then []
    else
      var n := |mask| - 1;
      Where(mask[..n]) + if mask[n] then [n] else []
  }

  /** Every position at which the mask holds is selected. */
  lemma {:induction false} WhereComplete(mask: seq<bool>)
    ensures forall k :: 0 <= k < |mask| && mask[k] ==> k in Where(mask)
  {
    if mask != [] {
      var n := |mask| - 1;
      WhereComplete(mask[..n]);
      assert forall k :: 0 <= k < n ==> mask[..n][k] == mask[k];
    }
  }

  /** A mask that holds everywhere selects every position. */
  lemma {:induction false} WhereAll(mask: seq<bool>)
    requires forall k :: 0 <= k < |mask| ==> mask[k]
    ensures Where(mask) == seq(|mask|, k => k)
  {
    if mask != [] {
      var n := |mask| - 1;
      WhereAll(mask[..n]);
    }
  }

  /** A mask that fails at `p` alone selects every position except `p`. */
  lemma {:induction false} WhereAllBut(mask: seq<bool>, p: nat)
    requires p < |mask|
    requires forall k :: 0 <= k < |mask| ==> (mask[k] <==> k != p)
    ensures |Where(mask)| == |mask| - 1
    ensures forall j :: 0 <= j < |mask| - 1 ==> Where(mask)[j] == if j < p then j else j + 1
  {
    var n := |mask| - 1;
    var front := mask[..n];
    assert forall k :: 0 <= k < n ==> front[k] == mask[k];
    if p == n {
      WhereAll(front);
    } else {
      WhereAllBut(front, p);
      var w := Where(front);
      assert mask[n];
      assert Where(mask) == w + [n];
      forall j | 0 <= j < n ensures (w + [n])[j] == if j < p then j else j + 1 {
        if j < n - 1 {
          assert (w + [n])[j] == w[j];
        }
      }
    }
  }

  /** `mask[i]` holds when `s[i]` does not occur earlier in `s`: the negation
      of pandas' `duplicated()` with its default `keep="first"`. */
  function NotDuplicated<T(==)>(s: seq<T>): (mask: seq<bool>)
    ensures |mask| == |s|
  {
    seq(|s|, i requires 0 <= i < |s| => s[i] !in s[..i])
  }

  /** Without repetitions, nothing counts as a duplicate. */
  lemma DistinctNotDuplicated<T>(s: seq<T>)
    requires Distinct(s)
    ensures forall k :: 0 <= k < |s| ==> NotDuplicated(s)[k]
  {
    forall k | 0 <= k < |s| ensures s[k] !in s[..k] {
      assert forall i :: 0 <= i < k ==> s[..k][i] == s[i];
    }
  }

  /** The elements at positions `idxs`, in that order. */
  function Select<T>(s: seq<T>, idxs: seq<nat>): (r: seq<T>)
    requires forall j :: 0 <= j < |idxs| ==> idxs[j] < |s|
    ensures |r| == |idxs| && forall j :: 0 <= j < |idxs| ==> r[j] == s[idxs[j]]
  {
    seq(|idxs|, j requires 0 <= j < |idxs| => s[idxs[j]])
  }

  /** Picking every position but `p`, in order, removes the element at `p`. */
  lemma SkipAt<T>(s: seq<T>, idxs: seq<nat>, p: nat, r: seq<T>)
    requires p < |s| && |idxs| == |s| - 1
    requires forall j :: 0 <= j < |idxs| ==> idxs[j] == if j < p then j else j + 1
    requires |r| == |idxs| && forall j :: 0 <= j < |idxs| ==> r[j] == s[idxs[j]]
    ensures r == s[..p] + s[p + 1..]
  {
    forall j | 0 <= j < |r| ensures r[j] == (s[..p] + s[p + 1..])[j] {
      assert r[j] == s[idxs[j]];
    }
  }

  /** Keeping the first occurrence of each element keeps every element, and
      the kept copy of `x` is its first occurrence. */
  lemma FirstOccurrenceKept<T>(s: seq<T>, x: T)
    requires x in s
    ensures var idxs := Where(NotDuplicated(s));
            var kept := Select(s, idxs);
            x in kept && idxs[IndexOf(kept, x)] == IndexOf(s, x)
  {
    var idxs := Where(NotDuplicated(s));
    var kept := Select(s, idxs);
    var m := IndexOf(s, x);
    WhereComplete(NotDuplicated(s));
    assert NotDuplicated(s)[m];
    var j :| 0 <= j < |idxs| && idxs[j] == m;
    forall a | 0 <= a < j ensures kept[..j][a] != x {
      assert kept[..j][a] == s[idxs[a]];
      assert s[..m][idxs[a]] == s[idxs[a]];
    }
    IndexOfUnique(kept, x, j);
  }

  /** Keeping the first occurrence of each element keeps nothing new. */
  lemma FirstOccurrenceOnly<T>(s: seq<T>, x: T)
    requires x !in s
    ensures x !in Select(s, Where(NotDuplicated(s)))
  {
  }

  /** Kept first occurrences are pairwise distinct. */
  lemma FirstOccurrencesDistinct<T>(s: seq<T>)
    ensures Distinct(Select(s, Where(NotDuplicated(s))))
  {
    var idxs := Where(NotDuplicated(s));
    var kept := Select(s, idxs);
    forall a, b | 0 <= a < b < |kept| ensures kept[a] != kept[b] {
      assert NotDuplicated(s)[idxs[b]];
      assert s[..idxs[b]][idxs[a]] == kept[a];
    }
  }

  /** The first position of each of `xs` in `s`, in the order of `xs`. */
  function Positions<T(==)>(s: seq<T>, xs: seq<T>): (idxs: seq<nat>)
    requires forall x :: x in xs ==> x in s
    ensures |idxs| == |xs|
    ensures forall j :: 0 <= j < |xs| ==> idxs[j] < |s| && s[idxs[j]] == xs[j] && xs[j] !in s[..idxs[j]]
  {
    seq(|xs|, j requires 0 <= j < |xs| => IndexOf(s, xs[j]))
  }

  /** Filtering by a test every element passes keeps everything. */
  lemma {:induction false} FilterAll<T(!new)>(s: seq<T>, p: T -> bool)
    requires forall x :: x in s ==> p(x)
    ensures Filter(s, p) == s
  {
    if s != [] {
      assert s[0] in s;
      assert forall x :: x in s[1..] ==> x in s;
      FilterAll(s[1..], p);
    }
  }

  /** Filtering keeps all of `b` and none of `a` when `p` fails on every
      element of `a` and holds on every element of `b`. */
  lemma {:induction false} FilterSecond<T(!new)>(a: seq<T>, b: seq<T>, p: T -> bool)
    requires forall x :: x in a ==> !p(x)
    requires forall x :: x in b ==> p(x)
    ensures Filter(a + b, p) == b
  {
    if a == [] {
      assert a + b == b;
      FilterAll(b, p);
    } else {
      assert a[0] in a;
      assert (a + b)[0] == a[0];
      assert (a + b)[1..] == a[1..] + b;
      assert forall x :: x in a[1..] ==> x in a;
      FilterSecond(a[1..], b, p);
    }
  }

  /** Reading the elements of `a[..k] + b + a[k..]` by name out of `a + b`,
      whose names are distinct, moves the parallel cells `x + y` the same
      way: the block `y` lands at position `k`. */
  lemma SpliceSelect<T, U>(a: seq<T>, b: seq<T>, k: nat, x: seq<U>, y: seq<U>)
    requires Distinct(a + b) && k <= |a| && |x| == |a| && |y| == |b|
    ensures var spliced := a[..k] + b + a[k..];
            Select(x + y, Positions(a + b, spliced)) == x[..k] + y + x[k..]
  {
    var all := a + b;
    var spliced := a[..k] + b + a[k..];
    var idxs := Positions(all, spliced);
    var got := Select(x + y, idxs);
    var want := x[..k] + y + x[k..];
    forall j | 0 <= j < |spliced| ensures got[j] == want[j] {
      var q := if j < k then j else if j < k + |b| then |a| + (j - k) else j - |b|;
      assert all[q] == spliced[j];
      assert idxs[j] == q;
    }
  }
}
