/**
 * Grouping a sequence by a key, the way the core fills a JavaScript `Map` in a loop: a key is
 * inserted the first time it is seen (so the Map iterates its keys in first-seen order) and
 * each element is appended to its key's list (so every list keeps input order).
 */
module Grouping {

  predicate Distinct<K(==)>(ks: seq<K>) {
    forall i, j :: 0 <= i < j < |ks| ==> ks[i] != ks[j]
  }

  /** The elements of `xs` that satisfy `p`, in input order. */
  function Filter<V>(xs: seq<V>, p: V -> bool): (ys: seq<V>)
    ensures |ys| <= |xs|
    ensures forall y :: y in ys ==> y in xs && p(y)
    ensures forall x :: x in xs && p(x) ==> x in ys
  {
    if xs == [] then []
    else Filter(xs[..|xs| - 1], p) + (if p(xs[|xs| - 1]) then [xs[|xs| - 1]] else [])
  }

  /** The elements of `xs` whose key is `k`, in input order: the list a Map holds under `k`. */
  function Members<K(==), V>(xs: seq<V>, key: V -> K, k: K): (g: seq<V>)
    ensures |g| <= |xs|
    ensures forall i :: 0 <= i < |g| ==> key(g[i]) == k
    ensures forall y :: y in g ==> y in xs
    ensures forall x :: x in xs && key(x) == k ==> x in g
  {
    if xs == [] then []
    else Members(xs[..|xs| - 1], key, k) + (if key(xs[|xs| - 1]) == k then [xs[|xs| - 1]] else [])
  }

  /** The keys of `xs`, each once, in the order in which they are first seen. */
  function Keys<K(==), V>(xs: seq<V>, key: V -> K): (ks: seq<K>)
    ensures Distinct(ks)
    ensures forall k :: k in ks ==> Members(xs, key, k) != []
    ensures forall x :: x in xs ==> key(x) in ks
  {
    if xs == [] then []
    else
      var ks := Keys(xs[..|xs| - 1], key);
      var k := key(xs[|xs| - 1]);
      if k in ks then ks else ks + [k]
  }

  /**
   * The Map a grouping loop builds, element by element: the element's list under its key,
   * created empty when the key is new, gets the element appended. It maps each key of `xs` to
   * its members.
   */
  function GroupMap<K(==), V>(xs: seq<V>, key: V -> K): (m: map<K, seq<V>>)
    ensures forall k :: k in m ==> k in Keys(xs, key) && m[k] == Members(xs, key, k)
    ensures forall k :: k in Keys(xs, key) ==> k in m
  {
    if xs == [] then map[]
    else
      var init := xs[..|xs| - 1];
      var x := xs[|xs| - 1];
      var m := GroupMap(init, key);
      assert xs == init + [x];
      GroupMapStepSpec(init, x, key, m);
      m[key(x) := (if key(x) in m then m[key(x)] else []) + [x]]
  }

  /** Adding `x` to a Map of `xs` keeps it the Map of `xs + [x]`. */
  lemma GroupMapStepSpec<K, V>(xs: seq<V>, x: V, key: V -> K, m: map<K, seq<V>>)
    requires forall k :: k in m ==> k in Keys(xs, key) && m[k] == Members(xs, key, k)
    requires forall k :: k in Keys(xs, key) ==> k in m
    ensures var m' := m[key(x) := (if key(x) in m then m[key(x)] else []) + [x]];
            && (forall k :: k in m' ==> k in Keys(xs + [x], key) && m'[k] == Members(xs + [x], key, k))
            && (forall k :: k in Keys(xs + [x], key) ==> k in m')
  {
    var m' := m[key(x) := (if key(x) in m then m[key(x)] else []) + [x]];
    KeysAppend(xs, x, key);
    forall k | k in m'
      ensures k in Keys(xs + [x], key) && m'[k] == Members(xs + [x], key, k)
    {
      MembersAppend(xs, x, key, k);
      if k !in m {
        NewKeyHasNoMembers(xs, key, k);
      }
    }
  }

  /** The keys among `ks`, in their order, whose list in `m` holds more than one element. */
  function SharedKeys<K(==), V>(ks: seq<K>, m: map<K, seq<V>>): (rs: seq<K>)
    requires forall k :: k in ks ==> k in m
    ensures |rs| <= |ks|
    ensures forall k :: k in rs ==> k in ks && |m[k]| > 1
    ensures forall k :: k in ks && |m[k]| > 1 ==> k in rs
    ensures Distinct(ks) ==> Distinct(rs)
  {
    if ks == [] then []
    else
      var k := ks[|ks| - 1];
      SharedKeys(ks[..|ks| - 1], m) + (if |m[k]| > 1 then [k] else [])
  }

  /** The lists of `m` under `ks`, in order. */
  function ListsAt<K(==), V>(ks: seq<K>, m: map<K, seq<V>>): (ls: seq<seq<V>>)
    requires forall k :: k in ks ==> k in m
    ensures |ls| == |ks|
    ensures forall i :: 0 <= i < |ks| ==> ls[i] == m[ks[i]]
  {
    if ks == [] then [] else ListsAt(ks[..|ks| - 1], m) + [m[ks[|ks| - 1]]]
  }

  /** Σ over `ks` of the number of members of `xs` under each key. */
  function MemberCount<K(==), V>(ks: seq<K>, xs: seq<V>, key: V -> K): nat {
    if ks == [] then 0
    else MemberCount(ks[..|ks| - 1], xs, key) + |Members(xs, key, ks[|ks| - 1])|
  }

  /** Appending one element to `xs` adds one member under its key and none under any other. */
  lemma {:induction false} MemberCountAppend<K, V>(ks: seq<K>, xs: seq<V>, x: V, key: V -> K)
    requires Distinct(ks)
    ensures MemberCount(ks, xs + [x], key)
            == MemberCount(ks, xs, key) + (if key(x) in ks then 1 else 0)
  {
    if ks != [] {
      var ks' := ks[..|ks| - 1];
      var k := ks[|ks| - 1];
      MemberCountAppend(ks', xs, x, key);
      assert (xs + [x])[..|xs|] == xs;
      assert key(x) in ks <==> key(x) in ks' || key(x) == k;
      assert key(x) == k ==> key(x) !in ks';
    }
  }

  /** A key not yet among the keys of `xs` has no members in `xs`. */
  lemma NewKeyHasNoMembers<K, V>(xs: seq<V>, key: V -> K, k: K)
    requires k !in Keys(xs, key)
    ensures Members(xs, key, k) == []
  {
  }

  /** A member under `k` is an element of `xs` whose key is `k`. */
  lemma MemberOf<K, V>(xs: seq<V>, key: V -> K, k: K, x: V)
    requires x in Members(xs, key, k)
    ensures x in xs && key(x) == k
  {
    var g := Members(xs, key, k);
    var i :| 0 <= i < |g| && g[i] == x;
  }

  /** The groups partition the input: their sizes add up to the length of `xs`. */
  lemma {:induction false} GroupSizesSum<K, V>(xs: seq<V>, key: V -> K)
    ensures MemberCount(Keys(xs, key), xs, key) == |xs|
  {
    if xs != [] {
      var xs' := xs[..|xs| - 1];
      var x := xs[|xs| - 1];
      assert xs == xs' + [x];
      var k := key(x);
      var ks' := Keys(xs', key);
      GroupSizesSum(xs', key);
      MemberCountAppend(ks', xs', x, key);
      if k !in ks' {
        NewKeyHasNoMembers(xs', key, k);
        var ks := ks' + [k];
        assert ks[..|ks'|] == ks';
        assert MemberCount(ks, xs, key) == MemberCount(ks', xs, key) + |Members(xs, key, k)|;
      }
    }
  }

  lemma KeysAppend<K, V>(xs: seq<V>, x: V, key: V -> K)
    ensures var ks := Keys(xs, key);
            Keys(xs + [x], key) == if key(x) in ks then ks else ks + [key(x)]
  {
    assert (xs + [x])[..|xs|] == xs;
  }

  lemma MembersAppend<K, V>(xs: seq<V>, x: V, key: V -> K, k: K)
    ensures Members(xs + [x], key, k) == Members(xs, key, k) + (if key(x) == k then [x] else [])
  {
    assert (xs + [x])[..|xs|] == xs;
  }

  /** Appending `x` adds its key at the end if it is new, and appends `x` to that key's list. */
  lemma GroupMapAppend<K, V>(xs: seq<V>, x: V, key: V -> K)
    ensures var m := GroupMap(xs, key);
            GroupMap(xs + [x], key) == m[key(x) := (if key(x) in m then m[key(x)] else []) + [x]]
  {
    assert (xs + [x])[..|xs|] == xs;
  }

  lemma ListsAtAppend<K, V>(ks: seq<K>, k: K, m: map<K, seq<V>>)
    requires forall k' :: k' in ks + [k] ==> k' in m
    ensures ListsAt(ks + [k], m) == ListsAt(ks, m) + [m[k]]
  {
    assert (ks + [k])[..|ks|] == ks;
  }

  /**
   * Adding `x` to the Map of `xs` under its key (creating an empty list first when the key is
   * new) gives the keys and Map of `xs + [x]`.
   */
  lemma GroupAppend<K, V>(xs: seq<V>, x: V, key: V -> K, ks: seq<K>, m: map<K, seq<V>>)
    requires ks == Keys(xs, key) && m == GroupMap(xs, key)
    ensures (if key(x) in m then ks else ks + [key(x)]) == Keys(xs + [x], key)
    ensures m[key(x) := (if key(x) in m then m[key(x)] else []) + [x]] == GroupMap(xs + [x], key)
  {
    KeysAppend(xs, x, key);
    GroupMapAppend(xs, x, key);
  }

  /**
   * One step of the grouping loop over `xs`: from the keys `ks` and Map `m` of `xs[..i]`,
   * adding `xs[i]` under its key (creating an empty list first when the key is new) gives the
   * keys and Map of `xs[..i + 1]`.
   */
  lemma GroupStep<K, V>(xs: seq<V>, i: nat, key: V -> K, ks: seq<K>, m: map<K, seq<V>>)
    requires i < |xs| && ks == Keys(xs[..i], key) && m == GroupMap(xs[..i], key)
    ensures var k := key(xs[i]);
            (if k in m then ks else ks + [k]) == Keys(xs[..i + 1], key)
    ensures var k := key(xs[i]);
            m[k := (if k in m then m[k] else []) + [xs[i]]] == GroupMap(xs[..i + 1], key)
  {
    PrefixSnoc(xs, i);
    GroupAppend(xs[..i], xs[i], key, ks, m);
  }

  lemma PrefixSnoc<V>(xs: seq<V>, i: nat)
    requires i < |xs|
    ensures xs[..i + 1] == xs[..i] + [xs[i]]
  {
  }

  /**
   * One step of the filtering loop: the lists of the shared keys of `ks` are those of all but
   * its last key, followed by the last key's list when it holds more than one element.
   */
  lemma SharedListsLast<K, V>(ks: seq<K>, m: map<K, seq<V>>)
    requires ks != [] && forall k :: k in ks ==> k in m
    ensures var k := ks[|ks| - 1];
            var acc := ListsAt(SharedKeys(ks[..|ks| - 1], m), m);
            ListsAt(SharedKeys(ks, m), m) == if |m[k]| > 1 then acc + [m[k]] else acc
  {
    var k := ks[|ks| - 1];
    var rs := SharedKeys(ks[..|ks| - 1], m);
    if |m[k]| > 1 {
      ListsAtAppend(rs, k, m);
    }
  }

  /** `SharedListsLast` for the prefix `ks[..i + 1]`, as a loop over `ks` meets it. */
  lemma SharedListsPrefix<K, V>(ks: seq<K>, i: nat, m: map<K, seq<V>>)
    requires i < |ks| && forall k :: k in ks ==> k in m
    ensures var acc := ListsAt(SharedKeys(ks[..i], m), m);
            ListsAt(SharedKeys(ks[..i + 1], m), m) == if |m[ks[i]]| > 1 then acc + [m[ks[i]]] else acc
  {
    assert ks[..i + 1][..i] == ks[..i];
    SharedListsLast(ks[..i + 1], m);
  }

  /**
   * The lists of the keys of `xs` that are shared by more than one element: each is the whole
   * membership of its key, the keys are distinct, and every element whose key is shared has
   * its key among them.
   */
  lemma SharedGroups<K, V>(xs: seq<V>, key: V -> K)
    ensures var m := GroupMap(xs, key);
            var ks := SharedKeys(Keys(xs, key), m);
            var gs := ListsAt(ks, m);
            && |gs| == |ks| && Distinct(ks)
            && (forall i :: 0 <= i < |gs| ==> |gs[i]| > 1 && gs[i] == Members(xs, key, ks[i]) && key(gs[i][0]) == ks[i])
            && (forall x :: x in xs && |Members(xs, key, key(x))| > 1 ==> key(x) in ks)
  {
    var m := GroupMap(xs, key);
    var ks := SharedKeys(Keys(xs, key), m);
    var gs := ListsAt(ks, m);
    forall i | 0 <= i < |gs|
      ensures |gs[i]| > 1 && gs[i] == Members(xs, key, ks[i]) && key(gs[i][0]) == ks[i]
    {
      assert ks[i] in ks;
      assert ks[i] in Keys(xs, key);
    }
    forall x | x in xs && |Members(xs, key, key(x))| > 1
      ensures key(x) in ks
    {
      assert key(x) in Keys(xs, key);
    }
  }

  /** The `i`-th shared list is the whole membership, of two or more, of the `i`-th shared key. */
  lemma SharedGroupAt<K, V>(xs: seq<V>, key: V -> K, i: nat)
    requires i < |SharedKeys(Keys(xs, key), GroupMap(xs, key))|
    ensures var m := GroupMap(xs, key);
            var ks := SharedKeys(Keys(xs, key), m);
            var g := ListsAt(ks, m)[i];
            |g| > 1 && g == Members(xs, key, ks[i]) && key(g[0]) == ks[i]
  {
    var m := GroupMap(xs, key);
    var ks := SharedKeys(Keys(xs, key), m);
    assert ks[i] in ks;
    assert ks[i] in Keys(xs, key);
  }

  /** An element whose key is shared by another element has its key among the shared keys. */
  lemma SharedKeyCovers<K, V>(xs: seq<V>, key: V -> K, x: V)
    requires x in xs && |Members(xs, key, key(x))| > 1
    ensures key(x) in SharedKeys(Keys(xs, key), GroupMap(xs, key))
  {
    assert key(x) in Keys(xs, key);
  }

  lemma SharedKeysPrefix<K, V>(ks: seq<K>, i: nat, m: map<K, seq<V>>)
    requires i < |ks| && forall k :: k in ks ==> k in m
    ensures SharedKeys(ks[..i + 1], m) == SharedKeys(ks[..i], m) + (if |m[ks[i]]| > 1 then [ks[i]] else [])
  {
    assert ks[..i + 1][..i] == ks[..i];
  }

  /** `m` cut down to the keys in `ks`: a Map filled with `set` for each of those keys. */
  function Restrict<K, V>(m: map<K, V>, ks: seq<K>): (r: map<K, V>)
    ensures forall k :: k in r ==> k in ks && k in m && r[k] == m[k]
    ensures forall k :: k in ks && k in m ==> k in r
  {
    map k | k in ks && k in m :: m[k]
  }

  lemma RestrictNone<K, V>(m: map<K, V>)
    ensures Restrict(m, []) == map[]
  {
    assert Restrict(m, []).Keys == {};
  }

  lemma RestrictAppend<K, V>(m: map<K, V>, ks: seq<K>, k: K)
    requires k in m
    ensures Restrict(m, ks + [k]) == Restrict(m, ks)[k := m[k]]
  {
    var r := Restrict(m, ks + [k]);
    var r' := Restrict(m, ks)[k := m[k]];
    assert forall k' :: k' in ks + [k] <==> k' in ks || k' == k;
    assert r.Keys == r'.Keys;
  }

  /** Prefix sums in a sequence of sequences: Σ |xss[i]|. */
  function TotalLength<V>(xss: seq<seq<V>>): nat {
    if xss == [] then 0 else TotalLength(xss[..|xss| - 1]) + |xss[|xss| - 1]|
  }

  lemma TotalLengthPrefix<V>(xss: seq<seq<V>>, i: nat)
    requires i < |xss|
    ensures TotalLength(xss[..i + 1]) == TotalLength(xss[..i]) + |xss[i]|
  {
    assert xss[..i + 1][..i] == xss[..i];
  }

  lemma FilterPrefix<V>(xs: seq<V>, i: nat, p: V -> bool)
    requires i < |xs|
    ensures Filter(xs[..i + 1], p) == Filter(xs[..i], p) + (if p(xs[i]) then [xs[i]] else [])
  {
    assert xs[..i + 1][..i] == xs[..i];
  }

  // ---------------------------------------------------------------- sequence facts

  lemma WholePrefix<T>(s: seq<T>)
    ensures s[..|s|] == s
  {
  }

  lemma TakeNone<T>(a: seq<T>, t: seq<T>)
    ensures a + t[..0] == a
  {
  }

  lemma TakeAll<T>(a: seq<T>, t: seq<T>)
    ensures a + t[..|t|] == a + t
  {
  }

  lemma SeqSnocExt<T>(s: seq<T>, init: seq<T>, x: T)
    requires |s| == |init| + 1 && s[|init|] == x
    requires forall i :: 0 <= i < |init| ==> s[i] == init[i]
    ensures s == init + [x]
  {
  }

  lemma InConcat<T>(a: seq<T>, b: seq<T>)
    ensures forall x :: x in a ==> x in a + b
    ensures forall x :: x in b ==> x in a + b
  {
  }

  /** The elements of two sequences that together rearrange `c` are elements of `c`. */
  lemma SplitMembers<T>(a: seq<T>, b: seq<T>, c: seq<T>)
    requires multiset(a) + multiset(b) == multiset(c)
    ensures forall x :: x in a ==> x in c
    ensures forall x :: x in b ==> x in c
  {
    forall x | x in a ensures x in c {
      assert x in multiset(a);
      assert x in multiset(c);
    }
    forall x | x in b ensures x in c {
      assert x in multiset(b);
      assert x in multiset(c);
    }
  }
}
