/** Duplicate-free lists, look-ups, stable sorting, and totals over lists of keys. */
module Lists {
  import opened Support

  ghost predicate NoDuplicates<K>(xs: seq<K>) { forall i, j :: 0 <= i < j < |xs| ==> xs[i] != xs[j] }

  /** The keys in order of first appearance. */
  function Unique<K(==, !new)>(xs: seq<K>): (r: seq<K>)
    ensures NoDuplicates(r)
    ensures forall x :: x in r <==> x in xs
    ensures |r| <= |xs|
  {
    if xs == [] then []
    else
      var most, last := Unique(xs[..|xs| - 1]), xs[|xs| - 1];
      assert xs == xs[..|xs| - 1] + [last];
      if last in most then most else most + [last]
  }

  function Map<A, B>(xs: seq<A>, f: A -> B): (r: seq<B>)
    ensures |r| == |xs| && forall i :: 0 <= i < |xs| ==> r[i] == f(xs[i])
  {
    seq(|xs|, i requires 0 <= i < |xs| => f(xs[i]))
  }

  /** The first element with a property. */
  function FirstWhere<T(!new)>(xs: seq<T>, p: T -> bool): (r: Option<T>)
    ensures r.Some? ==> r.value in xs && p(r.value)
    ensures r.Some? ==> exists k :: 0 <= k < |xs| && xs[k] == r.value && forall j :: 0 <= j < k ==> !p(xs[j])
    ensures r.None? ==> forall x :: x in xs ==> !p(x)
  {
    if xs == [] then None
    else
      assert xs == [xs[0]] + xs[1..];
      if p(xs[0]) then Some(xs[0])
      else
        var r := FirstWhere(xs[1..], p);
        assert r.Some? ==>
          exists k ::
            && 0 <= k < |xs| - 1 && xs[1..][k] == r.value && xs[k + 1] == r.value
            && forall j :: 0 <= j < k ==> !p(xs[1..][j]);
        r
  }

  function CountWhere<T>(xs: seq<T>, p: T -> bool): nat {
    if xs == [] then 0 else (if p(xs[0]) then 1 else 0) + CountWhere(xs[1..], p)
  }

  lemma {:induction false} CountWhereExact<T(!new)>(xs: seq<T>, p: T -> bool)
    ensures CountWhere(xs, p) <= |xs|
    ensures CountWhere(xs, p) == |xs| <==> forall x :: x in xs ==> p(x)
    ensures CountWhere(xs, p) == 0 <==> forall x :: x in xs ==> !p(x)
  {
    if xs != [] {
      assert xs == [xs[0]] + xs[1..];
      CountWhereExact(xs[1..], p);
    }
  }

  function Total<K>(keys: seq<K>, f: K -> nat): nat {
    if keys == [] then 0 else f(keys[0]) + Total(keys[1..], f)
  }

  lemma {:induction false} TotalAtMost<K(!new)>(keys: seq<K>, f: K -> nat, g: K -> nat)
    requires forall k :: k in keys ==> f(k) <= g(k)
    ensures Total(keys, f) <= Total(keys, g)
  {
    if keys != [] {
      TotalAtMost(keys[1..], f, g);
    }
  }

  lemma TotalSame<K(!new)>(keys: seq<K>, f: K -> nat, g: K -> nat)
    requires forall k :: k in keys ==> f(k) == g(k)
    ensures Total(keys, f) == Total(keys, g)
  {
    TotalAtMost(keys, f, g);
    TotalAtMost(keys, g, f);
  }

  lemma {:induction false} TotalOfZeros<K(!new)>(keys: seq<K>, f: K -> nat)
    requires forall k :: k in keys ==> f(k) == 0
    ensures Total(keys, f) == 0
  {
    if keys != [] {
      TotalOfZeros(keys[1..], f);
    }
  }

  /** Raising one key by one raises the total by one. */
  lemma {:induction false} TotalPlusOne<K(!new)>(keys: seq<K>, f: K -> nat, g: K -> nat, key: K)
    requires NoDuplicates(keys) && key in keys
    requires forall k :: k in keys ==> g(k) == f(k) + (if k == key then 1 else 0)
    ensures Total(keys, g) == Total(keys, f) + 1
  {
    if keys[0] == key {
      TotalSame(keys[1..], f, g);
    } else {
      TotalPlusOne(keys[1..], f, g, key);
    }
  }

  // ---- Sorting ----

  function Insert<T>(x: T, xs: seq<T>, atMost: (T, T) -> bool): (r: seq<T>)
    ensures |r| == |xs| + 1
    ensures r[0] == x || (xs != [] && r[0] == xs[0])
  {
    if xs == [] || atMost(x, xs[0]) then [x] + xs else [xs[0]] + Insert(x, xs[1..], atMost)
  }

  /** The stable sort. */
  function Sort<T>(xs: seq<T>, atMost: (T, T) -> bool): (r: seq<T>)
    ensures |r| == |xs|
  {
    if xs == [] then [] else Insert(xs[0], Sort(xs[1..], atMost), atMost)
  }

  ghost predicate Ordered<T>(xs: seq<T>, atMost: (T, T) -> bool) {
    forall i :: 0 <= i < |xs| - 1 ==> atMost(xs[i], xs[i + 1])
  }

  ghost predicate Comparable<T(!new)>(atMost: (T, T) -> bool) { forall a, b :: atMost(a, b) || atMost(b, a) }

  lemma {:induction false} InsertKeepsOrder<T(!new)>(x: T, xs: seq<T>, atMost: (T, T) -> bool)
    requires Comparable(atMost) && Ordered(xs, atMost)
    ensures Ordered(Insert(x, xs, atMost), atMost)
  {
    if xs != [] && !atMost(x, xs[0]) {
      assert forall i :: 0 <= i < |xs[1..]| ==> xs[1..][i] == xs[i + 1];
      InsertKeepsOrder(x, xs[1..], atMost);
      var tail := Insert(x, xs[1..], atMost);
      assert atMost(xs[0], tail[0]);
      var whole := [xs[0]] + tail;
      assert forall i :: 1 <= i < |whole| ==> whole[i] == tail[i - 1];
    }
  }

  lemma {:induction false} SortOrders<T(!new)>(xs: seq<T>, atMost: (T, T) -> bool)
    requires Comparable(atMost)
    ensures Ordered(Sort(xs, atMost), atMost)
  {
    if xs != [] {
      SortOrders(xs[1..], atMost);
      InsertKeepsOrder(xs[0], Sort(xs[1..], atMost), atMost);
    }
  }

  ghost predicate Transitive<T(!new)>(atMost: (T, T) -> bool) {
    forall a, b, c :: atMost(a, b) && atMost(b, c) ==> atMost(a, c)
  }

  /** In a list ordered by a transitive comparison every element is at most every later one. */
  lemma {:induction false} OrderedThroughout<T(!new)>(xs: seq<T>, atMost: (T, T) -> bool, i: nat, j: nat)
    requires Transitive(atMost) && Ordered(xs, atMost) && i < j < |xs|
    ensures atMost(xs[i], xs[j])
    decreases j
  {
    if i + 1 < j {
      OrderedThroughout(xs, atMost, i, j - 1);
    }
  }

  lemma {:induction false} InsertKeeps<T>(x: T, xs: seq<T>, atMost: (T, T) -> bool)
    ensures multiset(Insert(x, xs, atMost)) == multiset([x]) + multiset(xs)
  {
    if xs != [] && !atMost(x, xs[0]) {
      assert xs == [xs[0]] + xs[1..];
      InsertKeeps(x, xs[1..], atMost);
    }
  }

  lemma {:induction false} SortKeeps<T>(xs: seq<T>, atMost: (T, T) -> bool)
    ensures multiset(Sort(xs, atMost)) == multiset(xs)
  {
    if xs != [] {
      SortKeeps(xs[1..], atMost);
      InsertKeeps(xs[0], Sort(xs[1..], atMost), atMost);
      assert xs == [xs[0]] + xs[1..];
    }
  }

  lemma {:induction false} NoDuplicatesCounts<T(!new)>(xs: seq<T>)
    ensures NoDuplicates(xs) <==> forall x :: multiset(xs)[x] <= 1
  {
    if xs != [] {
      var n := |xs| - 1;
      var front := xs[..n];
      NoDuplicatesCounts(front);
      assert xs == front + [xs[n]];
      assert forall x :: multiset(xs)[x] == multiset(front)[x] + (if x == xs[n] then 1 else 0);
      if xs[n] in front {
        var i :| 0 <= i < n && front[i] == xs[n];
        assert xs[i] == xs[n] && multiset(xs)[xs[n]] >= 2;
      } else {
        assert multiset(front)[xs[n]] == 0;
        assert NoDuplicates(xs) <==> NoDuplicates(front) by {
          assert forall i :: 0 <= i < n ==> front[i] in front;
        }
      }
    }
  }

  /** Two lists, the first duplicate-free, hold the same elements equally often exactly if both hold each once. */
  lemma SameOnceEach<T(!new)>(xs: seq<T>, ys: seq<T>)
    requires NoDuplicates(xs)
    ensures multiset(xs) == multiset(ys) <==> NoDuplicates(ys) && forall x :: x in xs <==> x in ys
  {
    NoDuplicatesCounts(xs);
    NoDuplicatesCounts(ys);
    assert forall x :: x in xs <==> multiset(xs)[x] > 0;
    assert forall x :: x in ys <==> multiset(ys)[x] > 0;
  }

  /** Sorting a duplicate-free list keeps exactly its members, once each. */
  lemma SortOfDistinct<T(!new)>(xs: seq<T>, atMost: (T, T) -> bool)
    requires NoDuplicates(xs)
    ensures NoDuplicates(Sort(xs, atMost))
    ensures forall x :: x in Sort(xs, atMost) <==> x in xs
  {
    hide Sort;
    SortKeeps(xs, atMost);
    NoDuplicatesCounts(xs);
    NoDuplicatesCounts(Sort(xs, atMost));
    assert forall x :: x in Sort(xs, atMost) <==> x in multiset(Sort(xs, atMost));
  }

  /** Sorting keeps elements of distinct keys distinct in their keys. */
  lemma SortKeepsDistinct<T(!new), K>(xs: seq<T>, key: T -> K, atMost: (T, T) -> bool)
    requires forall i, j :: 0 <= i < j < |xs| ==> key(xs[i]) != key(xs[j])
    ensures forall i, j :: 0 <= i < j < |xs| ==> key(Sort(xs, atMost)[i]) != key(Sort(xs, atMost)[j])
  {
    hide Sort;
    var sorted := Sort(xs, atMost);
    SortOfDistinct(xs, atMost);
    forall i, j | 0 <= i < j < |xs| ensures key(sorted[i]) != key(sorted[j]) {
      assert sorted[i] in sorted && sorted[j] in sorted;
      var a, b :| 0 <= a < |xs| && 0 <= b < |xs| && xs[a] == sorted[i] && xs[b] == sorted[j];
    }
  }
}
