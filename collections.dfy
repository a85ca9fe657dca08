/** The array operations the pages chain together: `filter`, `reduce` to a sum, and the
    `forEach` loops that push each element into a dictionary of groups. */
module Collections {

  /** `xs.filter(p)`: the elements satisfying `p`, in their input order. */
  function Filter<T>(xs: seq<T>, p: T -> bool): (r: seq<T>)
    ensures |r| <= |xs|
    ensures forall i :: 0 <= i < |r| ==> r[i] in xs && p(r[i])
    ensures forall i :: 0 <= i < |xs| && p(xs[i]) ==> xs[i] in r
  {
    if xs == [] then []
    else
      var last := xs[|xs| - 1];
      Filter(xs[..|xs| - 1], p) + (if p(last) then [last] else [])
  }

  /** Filtering a concatenation filters each part. */
  lemma {:induction false} FilterAppend<T>(xs: seq<T>, ys: seq<T>, p: T -> bool)
    ensures Filter(xs + ys, p) == Filter(xs, p) + Filter(ys, p)
    decreases |ys|
  {
    if ys == [] {
      assert xs + ys == xs;
    } else {
      var n := |ys| - 1;
      assert (xs + ys)[..|xs + ys| - 1] == xs + ys[..n];
      FilterAppend(xs, ys[..n], p);
    }
  }

  /** Filtering one more element at the end. */
  lemma FilterSnoc<T>(xs: seq<T>, x: T, p: T -> bool)
    ensures Filter(xs + [x], p) == Filter(xs, p) + (if p(x) then [x] else [])
  {
    assert (xs + [x])[..|xs|] == xs;
  }

  /** Filtering by a condition that every element meets keeps the whole sequence. */
  lemma {:induction false} FilterAll<T>(xs: seq<T>, p: T -> bool)
    requires forall i :: 0 <= i < |xs| ==> p(xs[i])
    ensures Filter(xs, p) == xs
  {
    if xs != [] {
      var n := |xs| - 1;
      FilterAll(xs[..n], p);
      assert xs == xs[..n] + [xs[n]];
    }
  }

  /** Filtering by a condition that no element meets keeps nothing. */
  lemma FilterNone<T>(xs: seq<T>, p: T -> bool)
    requires forall i :: 0 <= i < |xs| ==> !p(xs[i])
    ensures Filter(xs, p) == []
  {
  }

  /** Filtering keeps nothing exactly when no element meets the condition. */
  lemma FilterEmpty<T>(xs: seq<T>, p: T -> bool)
    ensures Filter(xs, p) == [] <==> forall i :: 0 <= i < |xs| ==> !p(xs[i])
  {
  }

  /** Conditions that agree on every element filter the same way. */
  lemma {:induction false} FilterCongruent<T>(xs: seq<T>, p: T -> bool, q: T -> bool)
    requires forall i :: 0 <= i < |xs| ==> p(xs[i]) == q(xs[i])
    ensures Filter(xs, p) == Filter(xs, q)
  {
    if xs != [] {
      FilterCongruent(xs[..|xs| - 1], p, q);
    }
  }

  /** Two complementary conditions split a sequence: between them they keep every element
      exactly once. */
  lemma {:induction false} FilterSplit<T>(xs: seq<T>, p: T -> bool, q: T -> bool)
    requires forall i :: 0 <= i < |xs| ==> q(xs[i]) == !p(xs[i])
    ensures multiset(Filter(xs, p)) + multiset(Filter(xs, q)) == multiset(xs)
  {
    if xs != [] {
      var n := |xs| - 1;
      var front, x := xs[..n], xs[n];
      assert xs == front + [x];
      FilterSplit(front, p, q);
      FilterSnoc(front, x, p);
      FilterSnoc(front, x, q);
      assert multiset(xs) == multiset(front) + multiset{x};
    }
  }

  /** Filtering twice keeps what both conditions keep. */
  lemma {:induction false} FilterFilter<T>(xs: seq<T>, p: T -> bool, q: T -> bool)
    ensures Filter(Filter(xs, p), q) == Filter(xs, x => p(x) && q(x))
  {
    if xs != [] {
      var n := |xs| - 1;
      var last := xs[n];
      FilterFilter(xs[..n], p, q);
      FilterAppend(Filter(xs[..n], p), if p(last) then [last] else [], q);
      if p(last) {
        assert Filter([last], q) == Filter([], q) + (if q(last) then [last] else []);
        assert [last][..0] == [];
      }
    }
  }

  /** Number of elements satisfying `p`. */
  function CountWhere<T>(xs: seq<T>, p: T -> bool): (n: nat)
    ensures n <= |xs|
  {
    |Filter(xs, p)|
  }

  /** `xs.reduce((sum, x) => sum + f(x), 0)`. */
  function Sum<T>(xs: seq<T>, f: T -> int): int {
    if xs == [] then 0 else Sum(xs[..|xs| - 1], f) + f(xs[|xs| - 1])
  }

  lemma {:induction false} SumAppend<T>(xs: seq<T>, ys: seq<T>, f: T -> int)
    ensures Sum(xs + ys, f) == Sum(xs, f) + Sum(ys, f)
    decreases |ys|
  {
    if ys == [] {
      assert xs + ys == xs;
    } else {
      var n := |ys| - 1;
      assert (xs + ys)[..|xs + ys| - 1] == xs + ys[..n];
      SumAppend(xs, ys[..n], f);
    }
  }

  /** A sum of non-negative terms is non-negative. */
  lemma {:induction false} SumNonNegative<T>(xs: seq<T>, f: T -> int)
    requires forall x :: x in xs ==> f(x) >= 0
    ensures Sum(xs, f) >= 0
  {
    if xs != [] {
      var n := |xs| - 1;
      assert forall x :: x in xs[..n] ==> x in xs;
      SumNonNegative(xs[..n], f);
    }
  }

  /** The condition "has key `k`", as one named term. */
  function KeyIs<T>(key: T -> string, k: string): T -> bool {
    x => key(x) == k
  }

  /** The set of keys of the elements. */
  ghost function KeySet<T>(xs: seq<T>, key: T -> string): set<string> {
    set x | x in xs :: key(x)
  }

  /** The position of the first element with key `k`, or `|xs|` when there is none. */
  function FirstWithKey<T>(xs: seq<T>, key: T -> string, k: string): (i: nat)
    ensures i <= |xs|
    ensures i < |xs| ==> key(xs[i]) == k
    ensures forall j :: 0 <= j < i ==> key(xs[j]) != k
    decreases |xs|
  {
    if xs == [] then 0
    else if key(xs[0]) == k then 0
    else 1 + FirstWithKey(xs[1..], key, k)
  }

  /** The loop `xs.forEach(x => { if (!groups[key(x)]) groups[key(x)] = []; groups[key(x)].push(x) })`.
      `order` lists the keys in the order the dictionary first received them. */
  method GroupBy<T>(xs: seq<T>, key: T -> string) returns (order: seq<string>, groups: map<string, seq<T>>)
    ensures groups.Keys == KeySet(xs, key)
    ensures forall k :: k in groups ==> groups[k] == Filter(xs, KeyIs(key, k))
    ensures forall i, j :: 0 <= i < j < |order| ==> order[i] != order[j]
    ensures forall k :: k in order <==> k in groups
    ensures forall a, b :: 0 <= a < b < |order| ==> FirstWithKey(xs, key, order[a]) < FirstWithKey(xs, key, order[b])
  {
    order, groups := [], map[];
    var i := 0;
    while i < |xs|
      invariant 0 <= i <= |xs|
      invariant groups.Keys == KeySet(xs[..i], key)
      invariant forall k :: k in groups ==> groups[k] == Filter(xs[..i], KeyIs(key, k))
      invariant forall a, b :: 0 <= a < b < |order| ==> order[a] != order[b]
      invariant forall k :: k in order <==> k in groups
      invariant forall a :: 0 <= a < |order| ==> FirstWithKey(xs, key, order[a]) < i
      invariant forall a, b :: 0 <= a < b < |order| ==> FirstWithKey(xs, key, order[a]) < FirstWithKey(xs, key, order[b])
    {
      var x := xs[i];
      var k := key(x);
      GroupStep(xs, i, key, groups);
      if k !in groups {
        FirstWithNewKey(xs, key, i);
        OrderStep(xs, key, i, order);
        order := order + [k];
        groups := groups[k := []];
      }
      groups := groups[k := groups[k] + [x]];
      i := i + 1;
    }
    assert xs[..i] == xs;
  }

  /** An element whose key no earlier element has is the first with that key. */
  lemma FirstWithNewKey<T>(xs: seq<T>, key: T -> string, i: nat)
    requires i < |xs| && key(xs[i]) !in KeySet(xs[..i], key)
    ensures FirstWithKey(xs, key, key(xs[i])) == i
  {
    forall j | 0 <= j < i
      ensures key(xs[j]) != key(xs[i])
    {
      assert xs[j] in xs[..i];
    }
  }

  /** Appending the key first met at position `i` keeps the keys in order of first appearance. */
  lemma OrderStep<T>(xs: seq<T>, key: T -> string, i: nat, order: seq<string>)
    requires i < |xs| && FirstWithKey(xs, key, key(xs[i])) == i
    requires forall a :: 0 <= a < |order| ==> FirstWithKey(xs, key, order[a]) < i
    requires forall a, b :: 0 <= a < b < |order| ==> FirstWithKey(xs, key, order[a]) < FirstWithKey(xs, key, order[b])
    ensures var order' := order + [key(xs[i])];
            && (forall a :: 0 <= a < |order'| ==> FirstWithKey(xs, key, order'[a]) < i + 1)
            && (forall a, b :: 0 <= a < b < |order'| ==> FirstWithKey(xs, key, order'[a]) < FirstWithKey(xs, key, order'[b]))
  {
  }

  /** One iteration of the grouping loop: appending `xs[i]` to the group under its key
      (a new, empty group when the key is new) keeps the groups equal to the filters. */
  lemma GroupStep<T>(xs: seq<T>, i: nat, key: T -> string, groups: map<string, seq<T>>)
    requires i < |xs|
    requires groups.Keys == KeySet(xs[..i], key)
    requires forall k :: k in groups ==> groups[k] == Filter(xs[..i], KeyIs(key, k))
    ensures var k := key(xs[i]);
            var groups' := groups[k := (if k in groups then groups[k] else []) + [xs[i]]];
            && groups'.Keys == KeySet(xs[..i + 1], key)
            && forall k' :: k' in groups' ==> groups'[k'] == Filter(xs[..i + 1], KeyIs(key, k'))
  {
    var x := xs[i];
    var k := key(x);
    assert xs[..i + 1] == xs[..i] + [x];
    if k !in groups {
      FilterNone(xs[..i], KeyIs(key, k));
    }
    var groups' := groups[k := (if k in groups then groups[k] else []) + [x]];
    forall k' | k' in groups'
      ensures groups'[k'] == Filter(xs[..i + 1], KeyIs(key, k'))
    {
      FilterSnoc(xs[..i], x, KeyIs(key, k'));
    }
  }

  /** Every element lands in exactly one group: the one under its own key. */
  lemma GroupsPartition<T>(xs: seq<T>, key: T -> string, groups: map<string, seq<T>>, x: T, k: string)
    requires forall k :: k in groups ==> groups[k] == Filter(xs, KeyIs(key, k))
    requires x in xs && k in groups
    ensures x in groups[k] <==> key(x) == k
  {
  }

  /** Total size of the groups under the keys `ks`. */
  function GroupTotal<T>(xs: seq<T>, key: T -> string, ks: seq<string>): int {
    if ks == [] then 0
    else GroupTotal(xs, key, ks[..|ks| - 1]) + |Filter(xs, KeyIs(key, ks[|ks| - 1]))|
  }

  /** The groups under distinct keys that cover every element hold, between them, as many
      elements as the input: no element is lost or counted twice. */
  lemma {:induction false} GroupSizes<T>(xs: seq<T>, key: T -> string, ks: seq<string>)
    requires forall i, j :: 0 <= i < j < |ks| ==> ks[i] != ks[j]
    requires forall i :: 0 <= i < |xs| ==> key(xs[i]) in ks
    ensures GroupTotal(xs, key, ks) == |xs|
    decreases |xs|
  {
    if xs == [] {
      GroupTotalEmpty(key, ks);
    } else {
      var n := |xs| - 1;
      assert xs[..n] + [xs[n]] == xs;
      GroupSizes(xs[..n], key, ks);
      GroupTotalSnoc(xs[..n], xs[n], key, ks);
      assert key(xs[n]) in ks;
    }
  }

  lemma {:induction false} GroupTotalEmpty<T>(key: T -> string, ks: seq<string>)
    ensures GroupTotal([], key, ks) == 0
  {
    if ks != [] {
      GroupTotalEmpty(key, ks[..|ks| - 1]);
    }
  }

  /** One more element adds one to the total of the keys when its key is among them. */
  lemma {:induction false} GroupTotalSnoc<T>(xs: seq<T>, x: T, key: T -> string, ks: seq<string>)
    requires forall i, j :: 0 <= i < j < |ks| ==> ks[i] != ks[j]
    ensures GroupTotal(xs + [x], key, ks) == GroupTotal(xs, key, ks) + (if key(x) in ks then 1 else 0)
  {
    if ks != [] {
      var m := |ks| - 1;
      var front, k := ks[..m], ks[m];
      assert ks == front + [k];
      assert k !in front;
      GroupTotalSnoc(xs, x, key, front);
      FilterSnoc(xs, x, KeyIs(key, k));
      assert KeyIs(key, k)(x) == (key(x) == k);
    }
  }
}
