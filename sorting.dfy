/** The stable sort behind JavaScript's `Array.prototype.sort` (stable since ES2019), and
    the "first best element" it brings to the front.

    A comparator `cmp` is passed as the relation `le(a, b) := cmp(a, b) <= 0`: `a` may stay
    before `b`. Nothing is assumed of `le` for the sort itself; the lemmas that give the
    result a meaning ask for a total preorder on the elements actually present. */
module Sorting {

  /** Inserts `x` before the first element it may precede; `x` was earlier in the input
      than every element of `ys`, so ties keep input order. */
  function Insert<T>(x: T, ys: seq<T>, le: (T, T) -> bool): (r: seq<T>)
    ensures |r| == |ys| + 1
    ensures multiset(r) == multiset(ys) + multiset{x}
  {
    if ys == [] || le(x, ys[0]) then [x] + ys
    else
      assert ys == [ys[0]] + ys[1..];
      [ys[0]] + Insert(x, ys[1..], le)
  }

  /** Stable insertion sort. */
  function Sort<T>(xs: seq<T>, le: (T, T) -> bool): (r: seq<T>)
    ensures |r| == |xs|
    ensures multiset(r) == multiset(xs)
  {
    if xs == [] then []
    else
      assert xs == [xs[0]] + xs[1..];
      Insert(xs[0], Sort(xs[1..], le), le)
  }

  function RemoveAt<T>(xs: seq<T>, k: nat): (r: seq<T>)
    requires k < |xs|
    ensures |r| == |xs| - 1
    ensures multiset(r) + multiset{xs[k]} == multiset(xs)
  {
    assert xs == xs[..k] + [xs[k]] + xs[k + 1..];
    xs[..k] + xs[k + 1..]
  }

  /** Index of the first element that may precede all others (for a total preorder);
      for any `le`, the element a stable sort brings to the front. */
  function BestIndex<T>(xs: seq<T>, le: (T, T) -> bool): (k: nat)
    requires |xs| > 0
    ensures k < |xs|
  {
    if |xs| == 1 then 0
    else
      var m := 1 + BestIndex(xs[1..], le);
      if le(xs[0], xs[m]) then 0 else m
  }

  ghost predicate TotalPreorderOn<T>(xs: seq<T>, le: (T, T) -> bool) {
    && (forall a, b :: a in xs && b in xs ==> le(a, b) || le(b, a))
    && (forall a, b, c :: a in xs && b in xs && c in xs && le(a, b) && le(b, c) ==> le(a, c))
  }

  ghost predicate Sorted<T>(s: seq<T>, le: (T, T) -> bool) {
    forall i, j :: 0 <= i < j < |s| ==> le(s[i], s[j])
  }

  lemma RemoveAtShift<T>(xs: seq<T>, k: nat)
    requires 0 < k < |xs|
    ensures RemoveAt(xs, k) == [xs[0]] + RemoveAt(xs[1..], k - 1)
  {
    assert xs[..k] == [xs[0]] + xs[1..][..k - 1];
    assert xs[k + 1..] == xs[1..][k..];
  }

  lemma SortCons<T>(x: T, r: seq<T>, le: (T, T) -> bool)
    ensures Sort([x] + r, le) == Insert(x, Sort(r, le), le)
  {
    assert ([x] + r)[0] == x && ([x] + r)[1..] == r;
  }

  lemma InsertPast<T>(x: T, y: T, t: seq<T>, le: (T, T) -> bool)
    requires !le(x, y)
    ensures Insert(x, [y] + t, le) == [y] + Insert(x, t, le)
  {
    assert ([y] + t)[0] == y && ([y] + t)[1..] == t;
  }

  lemma BestIndexCons<T>(xs: seq<T>, le: (T, T) -> bool)
    requires |xs| > 1
    ensures var m := 1 + BestIndex(xs[1..], le);
            BestIndex(xs, le) == if le(xs[0], xs[m]) then 0 else m
  {
  }

  /** The sort puts the best element first and sorts the rest the same way. */
  lemma {:induction false} SortUnfoldsBest<T>(xs: seq<T>, le: (T, T) -> bool)
    requires |xs| > 0
    ensures Sort(xs, le) == [xs[BestIndex(xs, le)]] + Sort(RemoveAt(xs, BestIndex(xs, le)), le)
  {
    if |xs| > 1 {
      var x, r := xs[0], xs[1..];
      var k := BestIndex(r, le);
      BestIndexCons(xs, le);
      assert xs[1 + k] == r[k];
      SortUnfoldsBest(r, le);
      if le(x, r[k]) {
        SortUnfoldsBestFront(xs, le);
      } else {
        SortUnfoldsBestLater(xs, le);
      }
    }
  }

  lemma SortUnfoldsBestFront<T>(xs: seq<T>, le: (T, T) -> bool)
    requires |xs| > 1
    requires var r := xs[1..]; var k := BestIndex(r, le);
             le(xs[0], r[k]) && Sort(r, le) == [r[k]] + Sort(RemoveAt(r, k), le)
    ensures Sort(xs, le) == [xs[0]] + Sort(RemoveAt(xs, 0), le)
  {
    var x, r := xs[0], xs[1..];
    var k := BestIndex(r, le);
    var sr := Sort(r, le);
    assert sr[0] == r[k];
    SortFront(x, r, le);
    assert RemoveAt(xs, 0) == r;
  }

  /** An element that may precede the head of the sorted rest stays in front. */
  lemma SortFront<T>(x: T, r: seq<T>, le: (T, T) -> bool)
    requires r != [] && le(x, Sort(r, le)[0])
    ensures Sort([x] + r, le) == [x] + Sort(r, le)
  {
    SortCons(x, r, le);
  }

  /** An element that may precede the head of a sequence is inserted in front. */
  lemma InsertFront<T>(x: T, ys: seq<T>, le: (T, T) -> bool)
    requires ys != [] && le(x, ys[0])
    ensures Insert(x, ys, le) == [x] + ys
  {
  }

  lemma SortUnfoldsBestLater<T>(xs: seq<T>, le: (T, T) -> bool)
    requires |xs| > 1
    requires var k := BestIndex(xs[1..], le); !le(xs[0], xs[1 + k])
    requires var r := xs[1..]; var k := BestIndex(r, le);
             Sort(r, le) == [r[k]] + Sort(RemoveAt(r, k), le)
    ensures var k := 1 + BestIndex(xs[1..], le);
            Sort(xs, le) == [xs[k]] + Sort(RemoveAt(xs, k), le)
  {
    var x, r := xs[0], xs[1..];
    var k := BestIndex(r, le);
    var rest := RemoveAt(r, k);
    var sortedRest := Sort(rest, le);
    assert xs[1 + k] == r[k];
    assert Sort(xs, le) == Insert(x, [r[k]] + sortedRest, le);
    InsertPast(x, r[k], sortedRest, le);
    SortCons(x, rest, le);
    assert Sort(xs, le) == [r[k]] + Sort([x] + rest, le);
    RemoveAtShift(xs, 1 + k);
  }

  lemma SortHead<T>(xs: seq<T>, le: (T, T) -> bool)
    requires |xs| > 0
    ensures Sort(xs, le)[0] == xs[BestIndex(xs, le)]
  {
    SortUnfoldsBest(xs, le);
  }

  /** The second element of the sort is the best of what remains once the best is removed. */
  lemma SortSecond<T>(xs: seq<T>, le: (T, T) -> bool)
    requires |xs| > 1
    ensures var rest := RemoveAt(xs, BestIndex(xs, le));
            Sort(xs, le)[1] == rest[BestIndex(rest, le)]
  {
    var rest := RemoveAt(xs, BestIndex(xs, le));
    SortUnfoldsBest(xs, le);
    SortHead(rest, le);
  }

  /** The sort only rearranges: every element of its output is an input element. */
  lemma SortKeepsElements<T>(xs: seq<T>, le: (T, T) -> bool)
    ensures forall i :: 0 <= i < |Sort(xs, le)| ==> Sort(xs, le)[i] in xs
  {
    var r := Sort(xs, le);
    forall i | 0 <= i < |r| ensures r[i] in xs {
      assert r[i] in multiset(r);
    }
  }

  lemma TotalPreorderOnSub<T>(xs: seq<T>, ys: seq<T>, le: (T, T) -> bool)
    requires TotalPreorderOn(xs, le)
    requires forall y :: y in ys ==> y in xs
    ensures TotalPreorderOn(ys, le)
  {
  }

  /** The best element may precede every element, and every element before it in the
      input is strictly worse: the stable choice among the maximal ones. */
  lemma {:induction false} BestIndexIsBest<T>(xs: seq<T>, le: (T, T) -> bool)
    requires |xs| > 0 && TotalPreorderOn(xs, le)
    ensures forall j :: 0 <= j < |xs| ==> le(xs[BestIndex(xs, le)], xs[j])
    ensures forall i :: 0 <= i < BestIndex(xs, le) ==> !le(xs[i], xs[BestIndex(xs, le)])
  {
    if |xs| > 1 {
      var r := xs[1..];
      TotalPreorderOnSub(xs, r, le);
      BestIndexIsBest(r, le);
      var m := 1 + BestIndex(r, le);
      assert xs[m] == r[m - 1];
      forall j | 1 <= j < |xs| ensures le(xs[m], xs[j]) {
        assert xs[j] == r[j - 1];
      }
      forall i | 1 <= i < m ensures !le(xs[i], xs[m]) {
        assert xs[i] == r[i - 1];
      }
      assert xs[0] in xs && xs[m] in xs;
    }
  }

  lemma {:induction false} InsertSorted<T>(x: T, ys: seq<T>, le: (T, T) -> bool)
    requires Sorted(ys, le) && TotalPreorderOn([x] + ys, le)
    ensures Sorted(Insert(x, ys, le), le)
  {
    if ys == [] || le(x, ys[0]) {
      var r := [x] + ys;
      forall i, j | 0 <= i < j < |r| ensures le(r[i], r[j]) {
        if i == 0 {
          assert r[j] == ys[j - 1];
          assert ys[0] in [x] + ys && r[j] in [x] + ys;
        }
      }
    } else {
      var t := ys[1..];
      TotalPreorderOnSub([x] + ys, [x] + t, le);
      InsertSorted(x, t, le);
      var tail := Insert(x, t, le);
      var r := [ys[0]] + tail;
      forall i, j | 0 <= i < j < |r| ensures le(r[i], r[j]) {
        if i == 0 {
          var e := r[j];
          assert e == tail[j - 1];
          assert e in multiset(tail);
          assert e == x || e in t;
          assert ys[0] in [x] + ys && x in [x] + ys;
          if e != x {
            var q :| 0 <= q < |t| && t[q] == e;
            assert ys[q + 1] == e;
          }
        }
      }
    }
  }

  /** With a total preorder on its elements, the stable sort's output is sorted. */
  lemma {:induction false} SortSorted<T>(xs: seq<T>, le: (T, T) -> bool)
    requires TotalPreorderOn(xs, le)
    ensures Sorted(Sort(xs, le), le)
  {
    if xs != [] {
      var r := xs[1..];
      TotalPreorderOnSub(xs, r, le);
      SortSorted(r, le);
      var sr := Sort(r, le);
      forall y | y in [xs[0]] + sr ensures y in xs {
        if y != xs[0] {
          assert y in multiset(sr);
        }
      }
      TotalPreorderOnSub(xs, [xs[0]] + sr, le);
      InsertSorted(xs[0], sr, le);
    }
  }

  /** Two relations that agree on every pair of positions pick the same best index. */
  lemma {:induction false} BestIndexAgrees<T, U>(xs: seq<T>, le1: (T, T) -> bool, ys: seq<U>, le2: (U, U) -> bool)
    requires |xs| == |ys| > 0
    requires forall i, j :: 0 <= i < |xs| && 0 <= j < |xs| ==> le1(xs[i], xs[j]) == le2(ys[i], ys[j])
    ensures BestIndex(xs, le1) == BestIndex(ys, le2)
  {
    if |xs| > 1 {
      forall i, j | 0 <= i < |xs| - 1 && 0 <= j < |xs| - 1
        ensures le1(xs[1..][i], xs[1..][j]) == le2(ys[1..][i], ys[1..][j])
      {
        assert xs[1..][i] == xs[i + 1] && xs[1..][j] == xs[j + 1];
        assert ys[1..][i] == ys[i + 1] && ys[1..][j] == ys[j + 1];
      }
      BestIndexAgrees(xs[1..], le1, ys[1..], le2);
    }
  }
}
