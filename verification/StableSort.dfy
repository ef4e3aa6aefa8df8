/** `sort.SliceStable` by an integer key: the sorted sequence, an in-place sort that produces
    it, and its characterisation by ranks. */
module StableSort {

  /** Insert after every element whose key is not greater: one round of a stable sort. */
  function InsertBy<T>(key: T -> int, sorted: seq<T>, x: T): seq<T> {
    if sorted == [] then [x]
    else
      var last := sorted[|sorted| - 1];
      if key(x) < key(last) then InsertBy(key, sorted[..|sorted| - 1], x) + [last]
      else sorted + [x]
  }

  function SortBy<T>(key: T -> int, s: seq<T>): seq<T> {
    if s == [] then []
    else InsertBy(key, SortBy(key, s[..|s| - 1]), s[|s| - 1])
  }

  // ---------- in place ----------

  lemma InsertBelow<T>(key: T -> int, sorted: seq<T>, x: T, j: nat)
    requires 0 < j <= |sorted| && key(x) < key(sorted[j - 1])
    ensures InsertBy(key, sorted[..j], x) + sorted[j..] == InsertBy(key, sorted[..j - 1], x) + sorted[j - 1..]
  {
    assert sorted[..j][..j - 1] == sorted[..j - 1];
    assert sorted[j - 1..] == [sorted[j - 1]] + sorted[j..];
  }

  lemma InsertHere<T>(key: T -> int, sorted: seq<T>, x: T, j: nat)
    requires j <= |sorted| && (j == 0 || key(x) >= key(sorted[j - 1]))
    ensures InsertBy(key, sorted[..j], x) == sorted[..j] + [x]
  {
  }

  /** A row of sorted elements with `x` put in at `j`, and what follows it. */
  function Row<T>(sorted: seq<T>, x: T, j: nat, rest: seq<T>): seq<T>
    requires j <= |sorted|
  {
    sorted[..j] + [x] + sorted[j..] + rest
  }

  lemma RowAt<T>(sorted: seq<T>, x: T, j: nat, rest: seq<T>)
    requires 0 < j <= |sorted|
    ensures Row(sorted, x, j, rest)[j - 1] == sorted[j - 1]
    ensures Row(sorted, x, j, rest)[j := sorted[j - 1]][j - 1 := x] == Row(sorted, x, j - 1, rest)
  {
  }

  lemma RowEnds<T>(sorted: seq<T>, x: T, j: nat, rest: seq<T>)
    requires j <= |sorted|
    ensures Row(sorted, x, j, rest)[..|sorted| + 1] == sorted[..j] + [x] + sorted[j..]
    ensures Row(sorted, x, j, rest)[|sorted| + 1..] == rest
  {
  }

  lemma RowStart<T>(s: seq<T>, i: nat)
    requires i < |s|
    ensures s == Row(s[..i], s[i], i, s[i + 1..])
  {
  }

  /** One round of the sort: sink the element at `i` below the greater ones before it. */
  method Sink<T>(key: T -> int, a: array<T>, i: nat)
    requires i < a.Length
    modifies a
    ensures a[..i + 1] == InsertBy(key, old(a[..i]), old(a[i]))
    ensures a[i + 1..] == old(a[i + 1..])
  {
    ghost var sorted, rest := a[..i], a[i + 1..];
    var x, j := a[i], i;
    RowStart(a[..], i);
    assert a[..][..i] == sorted && a[..][i + 1..] == rest;
    assert sorted[..i] == sorted && sorted[i..] == [];
    while j > 0 && key(x) < key(a[j - 1])
      invariant 0 <= j <= i && a[..] == Row(sorted, x, j, rest)
      invariant InsertBy(key, sorted, x) == InsertBy(key, sorted[..j], x) + sorted[j..]
    {
      RowAt(sorted, x, j, rest);
      assert a[j - 1] == a[..][j - 1] == sorted[j - 1];
      InsertBelow(key, sorted, x, j);
      a[j] := a[j - 1];
      j := j - 1;
      a[j] := x;
    }
    if j > 0 {
      RowAt(sorted, x, j, rest);
      assert a[j - 1] == a[..][j - 1] == sorted[j - 1];
    }
    InsertHere(key, sorted, x, j);
    RowEnds(sorted, x, j, rest);
    assert a[..i + 1] == a[..][..i + 1] && a[i + 1..] == a[..][i + 1..];
  }

  method SortInPlace<T>(key: T -> int, a: array<T>)
    modifies a
    ensures a[..] == SortBy(key, old(a[..]))
  {
    ghost var was := a[..];
    for i := 0 to a.Length
      invariant a[..i] == SortBy(key, was[..i])
      invariant a[i..] == was[i..]
    {
      assert a[i] == a[i..][0] == was[i];
      assert a[i + 1..] == a[i..][1..] == was[i + 1..];
      assert was[..i + 1][..i] == was[..i];
      Sink(key, a, i);
    }
    assert a[..] == a[..a.Length] && was == was[..a.Length];
  }

  // ---------- the sorted sequence, position by position ----------

  /** Key, then position: the strict order a stable sort puts the positions in. */
  predicate KeyLess<T>(key: T -> int, s: seq<T>, i: int, j: int)
    requires 0 <= i < |s| && 0 <= j < |s|
  {
    key(s[i]) < key(s[j]) || (key(s[i]) == key(s[j]) && i < j)
  }

  ghost predicate Covers(order: seq<int>, n: nat) {
    |order| == n && (forall k :: 0 <= k < n ==> 0 <= order[k] < n) && (forall i :: 0 <= i < n ==> i in order)
  }

  /** `order` lists all positions of `s` by strictly increasing key. */
  ghost predicate KeyOrder<T>(key: T -> int, s: seq<T>, order: seq<int>) {
    && Covers(order, |s|)
    && forall k, l :: 0 <= k < l < |s| ==> KeyLess(key, s, order[k], order[l])
  }

  /** `picked` takes elements of `s` at the first positions of `order`. */
  ghost predicate Picks<T>(s: seq<T>, order: seq<int>, picked: seq<T>) {
    && |picked| <= |order|
    && forall k :: 0 <= k < |picked| ==> 0 <= order[k] < |s| && picked[k] == s[order[k]]
  }

  lemma SplitBeforeLast<T>(s: seq<T>, at: nat, x: T)
    requires s != [] && at < |s|
    ensures var front, last := s[..|s| - 1], s[|s| - 1];
            front[..at] + [x] + front[at..] + [last] == s[..at] + [x] + s[at..]
  {
  }

  lemma {:induction false} InsertPosition<T>(key: T -> int, sorted: seq<T>, x: T) returns (at: nat)
    requires forall k, l :: 0 <= k < l < |sorted| ==> key(sorted[k]) <= key(sorted[l])
    ensures at <= |sorted| && InsertBy(key, sorted, x) == sorted[..at] + [x] + sorted[at..]
    ensures forall k :: 0 <= k < at ==> key(sorted[k]) <= key(x)
    ensures forall k :: at <= k < |sorted| ==> key(x) < key(sorted[k])
  {
    at := |sorted|;
    if sorted != [] && key(x) < key(sorted[|sorted| - 1]) {
      var front := sorted[..|sorted| - 1];
      at := InsertPosition(key, front, x);
      SplitBeforeLast(sorted, at, x);
      assert forall k :: 0 <= k < |front| ==> front[k] == sorted[k];
    } else {
      assert sorted[..at] == sorted && sorted[at..] == [];
    }
  }

  lemma CoversInsert(order: seq<int>, n: nat, at: nat)
    requires Covers(order, n) && at <= n
    ensures Covers(order[..at] + [n] + order[at..], n + 1)
  {
    var longer := order[..at] + [n] + order[at..];
    forall i | 0 <= i < n + 1
      ensures i in longer
    {
      if i == n {
        assert longer[at] == n;
      } else {
        assert i in order;
        var k :| 0 <= k < n && order[k] == i;
        assert longer[if k < at then k else k + 1] == i;
      }
    }
  }

  lemma KeyOrderInsert<T>(key: T -> int, s: seq<T>, order: seq<int>, at: nat)
    requires s != [] && KeyOrder(key, s[..|s| - 1], order) && at < |s|
    requires forall k :: 0 <= k < at ==> key(s[order[k]]) <= key(s[|s| - 1])
    requires forall k :: at <= k < |order| ==> key(s[|s| - 1]) < key(s[order[k]])
    ensures KeyOrder(key, s, order[..at] + [|s| - 1] + order[at..])
  {
    var n, front := |s| - 1, s[..|s| - 1];
    var longer := order[..at] + [n] + order[at..];
    CoversInsert(order, n, at);
    forall k, l | 0 <= k < l < n + 1
      ensures KeyLess(key, s, longer[k], longer[l])
    {
      if k != at && l != at {
        var k', l' := if k < at then k else k - 1, if l < at then l else l - 1;
        assert longer[k] == order[k'] && longer[l] == order[l'];
        assert KeyLess(key, front, order[k'], order[l']);
      } else if l == at {
        assert longer[k] == order[k];
      } else {
        assert longer[l] == order[l - 1];
      }
    }
  }

  lemma PicksInsert<T>(s: seq<T>, order: seq<int>, sorted: seq<T>, at: nat)
    requires s != [] && |sorted| == |order| == |s| - 1 && at < |s|
    requires Picks(s[..|s| - 1], order, sorted)
    ensures Picks(s, order[..at] + [|s| - 1] + order[at..], sorted[..at] + [s[|s| - 1]] + sorted[at..])
  {
  }

  lemma SortedKeys<T>(key: T -> int, s: seq<T>, order: seq<int>, sorted: seq<T>)
    requires KeyOrder(key, s, order) && |sorted| == |s| && Picks(s, order, sorted)
    ensures forall k, l :: 0 <= k < l < |sorted| ==> key(sorted[k]) <= key(sorted[l])
  {
  }

  /** The sort is by key and stable: it lists `s` in strict (key, position) order. */
  lemma {:induction false} SortedByKey<T>(key: T -> int, s: seq<T>) returns (order: seq<int>)
    ensures KeyOrder(key, s, order)
    ensures |SortBy(key, s)| == |s| && Picks(s, order, SortBy(key, s))
  {
    order := [];
    if s != [] {
      var n := |s| - 1;
      var front, x := s[..n], s[n];
      var before := SortedByKey(key, front);
      var sorted := SortBy(key, front);
      SortedKeys(key, front, before, sorted);
      var at := InsertPosition(key, sorted, x);
      order := before[..at] + [n] + before[at..];
      assert KeyOrder(key, s, order) by {
        assert forall k :: 0 <= k < n ==> sorted[k] == front[before[k]] == s[before[k]];
        KeyOrderInsert(key, s, before, at);
      }
      PicksInsert(s, before, sorted, at);
    }
  }

  // ---------- ranks ----------

  ghost function Higher<T>(key: T -> int, s: seq<T>, i: int): set<int>
    requires 0 <= i < |s|
  {
    set j | 0 <= j < |s| && KeyLess(key, s, i, j)
  }

  ghost function Members(order: seq<int>): set<int> {
    set x | x in order
  }

  lemma {:induction false} MembersSize(order: seq<int>)
    requires forall a, b :: 0 <= a < b < |order| ==> order[a] != order[b]
    ensures |Members(order)| == |order|
  {
    if order != [] {
      var rest := order[1..];
      MembersSize(rest);
      assert Members(order) == {order[0]} + Members(rest);
      assert order[0] !in rest;
    }
  }

  /** The element sorted to position `k` has exactly the later ones above it. */
  lemma HigherCount<T>(key: T -> int, s: seq<T>, order: seq<int>, k: nat)
    requires KeyOrder(key, s, order) && k < |s|
    ensures |Higher(key, s, order[k])| == |s| - 1 - k
  {
    var after := order[k + 1..];
    forall j | j in Higher(key, s, order[k])
      ensures j in after
    {
      assert j in order;
      var l :| 0 <= l < |order| && order[l] == j;
      assert after[l - k - 1] == j;
    }
    forall j | j in after
      ensures j in Higher(key, s, order[k])
    {
      var l :| 0 <= l < |after| && after[l] == j;
      assert order[k + 1 + l] == j;
    }
    assert Higher(key, s, order[k]) == Members(after);
    forall a, b | 0 <= a < b < |after|
      ensures after[a] != after[b]
    {
      assert KeyLess(key, s, order[k + 1 + a], order[k + 1 + b]);
    }
    MembersSize(after);
  }

  /** There is only one such order. */
  lemma KeyOrderUnique<T>(key: T -> int, s: seq<T>, first: seq<int>, second: seq<int>)
    requires KeyOrder(key, s, first) && KeyOrder(key, s, second)
    ensures first == second
  {
    forall k | 0 <= k < |s|
      ensures first[k] == second[k]
    {
      assert first[k] in second;
      var l :| 0 <= l < |s| && second[l] == first[k];
      HigherCount(key, s, first, k);
      HigherCount(key, s, second, l);
    }
  }

  /** So whatever lists the elements by key, equal keys in their original order, gives the same
      sequence. */
  lemma AnyStableSort<T>(key: T -> int, s: seq<T>, order: seq<int>, sorted: seq<T>)
    requires KeyOrder(key, s, order) && |sorted| == |s| && Picks(s, order, sorted)
    ensures sorted == SortBy(key, s)
  {
    var order' := SortedByKey(key, s);
    KeyOrderUnique(key, s, order, order');
  }

  lemma SortKeepsElements<T>(key: T -> int, s: seq<T>)
    ensures forall x :: x in SortBy(key, s) <==> x in s
  {
    var order := SortedByKey(key, s);
    var sorted := SortBy(key, s);
    forall x | x in s
      ensures x in sorted
    {
      var i :| 0 <= i < |s| && s[i] == x;
      assert i in order;
      var k :| 0 <= k < |order| && order[k] == i;
      assert sorted[k] == x;
    }
  }

  lemma SortSize<T>(key: T -> int, s: seq<T>)
    ensures |SortBy(key, s)| == |s|
  {
    var _ := SortedByKey(key, s);
  }
}
