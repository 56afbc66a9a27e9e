/**
 * `Array.prototype.sort` with a comparator of the form `(a, b) => key(a) - key(b)`. Since
 * ES2019 the sort is stable, so its result is fully determined: ordered by key, and elements
 * with equal keys keep their input order. A descending comparator `(a, b) => key(b) - key(a)`
 * is the same sort on the negated key.
 */
module StableSort {
  import opened Grouping

  predicate SortedBy<V>(s: seq<V>, key: V -> int) {
    forall i, j :: 0 <= i < j < |s| ==> key(s[i]) <= key(s[j])
  }

  /** `x` placed before the first element of `s` whose key is not smaller than its own. */
  function Insert<V>(x: V, s: seq<V>, key: V -> int): (r: seq<V>)
    ensures |r| == |s| + 1
    ensures multiset(r) == multiset(s) + multiset{x}
  {
    if s == [] || key(x) <= key(s[0]) then [x] + s
    else
      assert s == [s[0]] + s[1..];
      [s[0]] + Insert(x, s[1..], key)
  }

  /** A lower bound on every key of `x` and `s` bounds every key of `Insert(x, s, key)`. */
  lemma InsertBounded<V>(x: V, s: seq<V>, key: V -> int, b: int)
    requires b <= key(x) && forall y :: y in s ==> b <= key(y)
    ensures forall y :: y in Insert(x, s, key) ==> b <= key(y)
  {
    forall y | y in Insert(x, s, key) ensures b <= key(y) {
      assert y in multiset(Insert(x, s, key));
      assert y == x || y in multiset(s);
    }
  }

  /** A sorted sequence stays sorted under an element whose key bounds all of its keys. */
  lemma ConsSorted<V>(a: V, t: seq<V>, key: V -> int)
    requires SortedBy(t, key) && forall y :: y in t ==> key(a) <= key(y)
    ensures SortedBy([a] + t, key)
  {
    var r := [a] + t;
    forall i, j | 0 <= i < j < |r| ensures key(r[i]) <= key(r[j]) {
      assert r[j] == t[j - 1];
      if i > 0 {
        assert r[i] == t[i - 1];
      }
    }
  }

  /** Inserting into a sorted sequence keeps it sorted. */
  lemma {:induction false} InsertSorted<V>(x: V, s: seq<V>, key: V -> int)
    requires SortedBy(s, key)
    ensures SortedBy(Insert(x, s, key), key)
  {
    if !(s == [] || key(x) <= key(s[0])) {
      var s' := s[1..];
      InsertSorted(x, s', key);
      InsertBounded(x, s', key, key(s[0]));
      ConsSorted(s[0], Insert(x, s', key), key);
    } else if s != [] {
      ConsSorted(x, s, key);
    }
  }

  /** The stable sort of `s` by `key`, ascending: a rearrangement of `s`. */
  function SortBy<V>(s: seq<V>, key: V -> int): (r: seq<V>)
    ensures |r| == |s|
    ensures multiset(r) == multiset(s)
  {
    if s == [] then []
    else
      assert s == [s[0]] + s[1..];
      Insert(s[0], SortBy(s[1..], key), key)
  }

  /** The sort orders by key. */
  lemma {:induction false} SortBySorted<V>(s: seq<V>, key: V -> int)
    ensures SortedBy(SortBy(s, key), key)
  {
    if s != [] {
      SortBySorted(s[1..], key);
      InsertSorted(s[0], SortBy(s[1..], key), key);
    }
  }

  // ---------------------------------------------------------------- stability

  lemma LastOfConcat<V>(a: seq<V>, b: seq<V>)
    requires b != []
    ensures (a + b)[..|a + b| - 1] == a + b[..|b| - 1]
    ensures (a + b)[|a + b| - 1] == b[|b| - 1]
  {
  }

  lemma ConcatAssoc<V>(a: seq<V>, b: seq<V>, c: seq<V>)
    ensures (a + b) + c == a + (b + c)
  {
  }

  lemma {:induction false} MembersConcat<V>(a: seq<V>, b: seq<V>, key: V -> int, k: int)
    ensures Members(a + b, key, k) == Members(a, key, k) + Members(b, key, k)
  {
    if b == [] {
      assert a + b == a;
    } else {
      var b' := b[..|b| - 1];
      var y := b[|b| - 1];
      LastOfConcat(a, b);
      MembersConcat(a, b', key, k);
      ConcatAssoc(Members(a, key, k), Members(b', key, k), if key(y) == k then [y] else []);
    }
  }

  lemma MembersCons<V>(x: V, s: seq<V>, key: V -> int, k: int)
    ensures Members([x] + s, key, k) == (if key(x) == k then [x] else []) + Members(s, key, k)
  {
    MembersConcat([x], s, key, k);
    assert [x][..0] == [];
  }

  /** Two pieces of which one is empty can be swapped in front of a third. */
  lemma SwapEmpty<V>(c0: seq<V>, cx: seq<V>, m: seq<V>)
    requires c0 == [] || cx == []
    ensures c0 + (cx + m) == cx + (c0 + m)
  {
    if c0 == [] {
      assert c0 + (cx + m) == cx + m;
      assert c0 + m == m;
    } else {
      assert cx + (c0 + m) == c0 + m;
      assert cx + m == m;
    }
  }

  lemma {:induction false} InsertStable<V>(x: V, s: seq<V>, key: V -> int, k: int)
    ensures Members(Insert(x, s, key), key, k) == Members([x] + s, key, k)
  {
    if s == [] || key(x) <= key(s[0]) {
      assert Insert(x, s, key) == [x] + s;
    } else {
      var s' := s[1..];
      assert s == [s[0]] + s';
      var t := Insert(x, s', key);
      assert Insert(x, s, key) == [s[0]] + t;
      InsertStable(x, s', key, k);
      var c0 := if key(s[0]) == k then [s[0]] else [];
      var cx := if key(x) == k then [x] else [];
      var m := Members(s', key, k);
      SwapEmpty(c0, cx, m);
      MembersCons(s[0], t, key, k);
      MembersCons(x, s', key, k);
      MembersCons(s[0], s', key, k);
      MembersCons(x, s, key, k);
    }
  }

  /** The sort is stable: for every key value, the elements with that key keep their order. */
  lemma {:induction false} SortByStable<V>(s: seq<V>, key: V -> int, k: int)
    ensures Members(SortBy(s, key), key, k) == Members(s, key, k)
  {
    if s != [] {
      SortByStable(s[1..], key, k);
      InsertStable(s[0], SortBy(s[1..], key), key, k);
      MembersCons(s[0], SortBy(s[1..], key), key, k);
      MembersCons(s[0], s[1..], key, k);
      assert s == [s[0]] + s[1..];
    }
  }

  // ---------------------------------------------------------------- the first element

  /** `j` is the first position of `s` holding a minimal key. */
  predicate IsFirstMin<V>(s: seq<V>, key: V -> int, j: int) {
    && 0 <= j < |s|
    && (forall i :: 0 <= i < |s| ==> key(s[j]) <= key(s[i]))
    && (forall i :: 0 <= i < j ==> key(s[i]) > key(s[j]))
  }

  function FirstMinIndex<V>(s: seq<V>, key: V -> int): (j: nat)
    requires s != []
    ensures IsFirstMin(s, key, j)
  {
    if |s| == 1 then 0
    else
      var j := FirstMinIndex(s[..|s| - 1], key);
      if key(s[|s| - 1]) < key(s[j]) then |s| - 1 else j
  }

  lemma SplitAround<V>(s: seq<V>, i: nat)
    requires i < |s|
    ensures s == s[..i] + [s[i]] + s[i + 1..]
  {
  }

  /** A sequence with no element of key `k` has no members under `k`. */
  lemma NoMembers<V>(xs: seq<V>, key: V -> int, k: int)
    requires forall p :: 0 <= p < |xs| ==> key(xs[p]) != k
    ensures Members(xs, key, k) == []
  {
  }

  lemma MembersSingleton<V>(x: V, key: V -> int)
    ensures Members([x], key, key(x)) == [x]
  {
    assert [x][..0] == [];
  }

  /** With no earlier element of key `k`, the first member under `k` is `s[i]`. */
  lemma FirstMember<V>(s: seq<V>, key: V -> int, i: nat)
    requires i < |s|
    requires forall p :: 0 <= p < i ==> key(s[p]) != key(s[i])
    ensures Members(s, key, key(s[i])) != [] && Members(s, key, key(s[i]))[0] == s[i]
  {
    var k := key(s[i]);
    var before := s[..i];
    SplitAround(s, i);
    NoMembers(before, key, k);
    MembersSingleton(s[i], key);
    MembersConcat(before, [s[i]], key, k);
    MembersConcat(before + [s[i]], s[i + 1..], key, k);
  }

  /** The head of the stable sort is the first element of minimal key. */
  lemma SortByHead<V>(s: seq<V>, key: V -> int)
    requires s != []
    ensures SortBy(s, key)[0] == s[FirstMinIndex(s, key)]
  {
    var r := SortBy(s, key);
    var j := FirstMinIndex(s, key);
    assert r[0] in multiset(s);
    var q :| 0 <= q < |s| && s[q] == r[0];
    assert s[j] in multiset(r);
    var p :| 0 <= p < |r| && r[p] == s[j];
    var m := key(s[j]);
    SortBySorted(s, key);
    assert key(r[0]) == m;
    FirstMember(s, key, j);
    FirstMember(r, key, 0);
    SortByStable(s, key, m);
  }

  // ---------------------------------------------------------------- sums

  /** Σ f(x) over `s` (a `reduce` with `+` from 0). */
  function SumOf<V>(s: seq<V>, f: V -> int): int {
    if s == [] then 0 else f(s[0]) + SumOf(s[1..], f)
  }

  lemma SumOfSnoc<V>(s: seq<V>, f: V -> int)
    requires s != []
    ensures SumOf(s, f) == SumOf(s[..|s| - 1], f) + f(s[|s| - 1])
  {
    var init := s[..|s| - 1];
    var last := s[|s| - 1];
    assert s == init + [last];
    SumOfConcat(init, [last], f);
    assert SumOf([last], f) == f(last);
  }

  lemma {:induction false} SumOfConcat<V>(a: seq<V>, b: seq<V>, f: V -> int)
    ensures SumOf(a + b, f) == SumOf(a, f) + SumOf(b, f)
  {
    if a == [] {
      assert a + b == b;
    } else {
      SumOfConcat(a[1..], b, f);
      assert (a + b)[1..] == a[1..] + b;
    }
  }

  lemma {:induction false} InsertSum<V>(x: V, s: seq<V>, key: V -> int, f: V -> int)
    ensures SumOf(Insert(x, s, key), f) == f(x) + SumOf(s, f)
  {
    if !(s == [] || key(x) <= key(s[0])) {
      InsertSum(x, s[1..], key, f);
      assert ([s[0]] + Insert(x, s[1..], key))[1..] == Insert(x, s[1..], key);
    } else {
      assert ([x] + s)[1..] == s;
    }
  }

  /** Sorting does not change a sum. */
  lemma {:induction false} SortBySum<V>(s: seq<V>, key: V -> int, f: V -> int)
    ensures SumOf(SortBy(s, key), f) == SumOf(s, f)
  {
    if s != [] {
      SortBySum(s[1..], key, f);
      InsertSum(s[0], SortBy(s[1..], key), key, f);
    }
  }
}
