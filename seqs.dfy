/** Sequence helpers standing in for the array methods the engine relies on:
    `findIndex`/`find` (the first element that matches) and `filter`. */
module Seqs {

  datatype Option<+T> = None | Some(value: T)

  /** The index of the first element satisfying `matches`; `None` plays the
      part of the -1 that `findIndex` returns (and of the `undefined` of `find`). */
  function FirstIndex<T>(s: seq<T>, matches: T -> bool): (r: Option<nat>)
    ensures r.Some? ==> r.value < |s| && matches(s[r.value])
    ensures r.Some? ==> forall j :: 0 <= j < r.value ==> !matches(s[j])
    ensures r.None? <==> forall j :: 0 <= j < |s| ==> !matches(s[j])
  {
    if |s| == 0 then None
    else if matches(s[0]) then Some(0)
    else match FirstIndex(s[1..], matches)
      case None => None
      case Some(k) => Some(k + 1)
  }

  /** The elements of `s` that satisfy `keep`, in their order in `s`. */
  function Filter<T(==)>(s: seq<T>, keep: T -> bool): (r: seq<T>)
    ensures |r| <= |s|
    ensures forall x :: x in r ==> x in s && keep(x)
    ensures forall i :: 0 <= i < |s| && keep(s[i]) ==> s[i] in r
    ensures |r| < |s| <==> exists i :: 0 <= i < |s| && !keep(s[i])
    ensures (forall i :: 0 <= i < |s| ==> keep(s[i])) ==> r == s
  {
    if |s| == 0 then []
    else
      var rest := Filter(s[1..], keep);
      if keep(s[0]) then [s[0]] + rest else rest
  }

  /** Every kept value occurs as often as before, every dropped one not at all. */
  lemma {:induction false} FilterCounts<T>(s: seq<T>, keep: T -> bool, x: T)
    ensures multiset(Filter(s, keep))[x] == if keep(x) then multiset(s)[x] else 0
  {
    if |s| > 0 {
      FilterCounts(s[1..], keep, x);
      assert s == [s[0]] + s[1..];
    }
  }

  /** Filtering keeps the relative order: it distributes over concatenation. */
  lemma {:induction false} FilterAppend<T>(a: seq<T>, b: seq<T>, keep: T -> bool)
    ensures Filter(a + b, keep) == Filter(a, keep) + Filter(b, keep)
  {
    if |a| == 0 {
      assert a + b == b;
    } else {
      assert (a + b)[1..] == a[1..] + b;
      FilterAppend(a[1..], b, keep);
    }
  }

  /** The head of a filtered sequence is the first matching element of the
      original one, so `filter(...)[0]` is the first match in order. */
  lemma {:induction false} FilterHeadIsFirstMatch<T>(s: seq<T>, keep: T -> bool)
    ensures FirstIndex(s, keep).None? ==> Filter(s, keep) == []
    ensures FirstIndex(s, keep).Some? ==>
      |Filter(s, keep)| > 0 && Filter(s, keep)[0] == s[FirstIndex(s, keep).value]
  {
    if |s| > 0 && !keep(s[0]) {
      FilterHeadIsFirstMatch(s[1..], keep);
    }
  }
}
