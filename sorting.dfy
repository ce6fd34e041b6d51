/** Order-related sequence operations the pipeline relies on: pandas'
    stable (mergesort) sort on one key, the order-preserving selection of
    the elements with a given key, and pandas' unique(), which keeps the
    distinct values in order of first appearance. */
module Sorting {

  function Last<T>(s: seq<T>): T
    requires |s| > 0
  {
    s[|s| - 1]
  }

  function Init<T>(s: seq<T>): seq<T>
    requires |s| > 0
  {
    s[..|s| - 1]
  }

  lemma InitLast<T>(s: seq<T>, x: T)
    ensures Init(s + [x]) == s && Last(s + [x]) == x
  {
    assert (s + [x])[..|s|] == s;
  }

  ghost predicate SortedBy<T>(s: seq<T>, key: T -> real)
  {
    forall i, j :: 0 <= i < j < |s| ==> key(s[i]) <= key(s[j])
  }

  /** The elements of s whose key is k, in their order in s. */
  function WithKey<T>(s: seq<T>, key: T -> real, k: real): (r: seq<T>)
    ensures |r| <= |s|
    ensures forall i :: 0 <= i < |r| ==> r[i] in s && key(r[i]) == k
    ensures forall i :: 0 <= i < |s| && key(s[i]) == k ==> s[i] in r
  {
    if s == [] then []
    else WithKey(Init(s), key, k) + (if key(Last(s)) == k then [Last(s)] else [])
  }

  lemma {:induction false} WithKeyAppend<T>(a: seq<T>, b: seq<T>, key: T -> real, k: real)
    ensures WithKey(a + b, key, k) == WithKey(a, key, k) + WithKey(b, key, k)
    decreases |b|
  {
    if b == [] {
      assert a + b == a;
    } else {
      assert Init(a + b) == a + Init(b);
      assert Last(a + b) == Last(b);
      WithKeyAppend(a, Init(b), key, k);
    }
  }

  /** Inserts x into t after every element whose key is not larger than
      x's: one step of a stable insertion sort. */
  function Insert<T>(t: seq<T>, x: T, key: T -> real): (r: seq<T>)
    ensures |r| == |t| + 1
    ensures multiset(r) == multiset(t) + multiset{x}
    decreases |t|
  {
    if t == [] || key(Last(t)) <= key(x) then t + [x]
    else
      assert t == Init(t) + [Last(t)];
      Insert(Init(t), x, key) + [Last(t)]
  }

  lemma {:induction false} InsertSorted<T>(t: seq<T>, x: T, key: T -> real)
    requires SortedBy(t, key)
    ensures SortedBy(Insert(t, x, key), key)
    decreases |t|
  {
    if !(t == [] || key(Last(t)) <= key(x)) {
      var t', l := Init(t), Last(t);
      assert t == t' + [l];
      InsertSorted(t', x, key);
      var r' := Insert(t', x, key);
      forall i | 0 <= i < |r'|
        ensures key(r'[i]) <= key(l)
      {
        assert r'[i] in multiset(r');
        assert r'[i] in t' || r'[i] == x;
      }
    }
  }

  /** Stability of one step: among the elements sharing a key, x lands after
      those already in t. */
  lemma {:induction false} InsertStable<T>(t: seq<T>, x: T, key: T -> real, k: real)
    ensures WithKey(Insert(t, x, key), key, k) ==
            WithKey(t, key, k) + (if key(x) == k then [x] else [])
    decreases |t|
  {
    if t == [] || key(Last(t)) <= key(x) {
      InitLast(t, x);
    } else {
      var t', l := Init(t), Last(t);
      assert t == t' + [l];
      InsertStable(t', x, key, k);
      InitLast(Insert(t', x, key), l);
    }
  }

  /** pandas' sort_values(kind="mergesort") on one key: a stable sort. */
  function SortBy<T>(s: seq<T>, key: T -> real): (r: seq<T>)
    ensures |r| == |s|
    ensures multiset(r) == multiset(s)
  {
    if s == [] then []
    else
      assert s == Init(s) + [Last(s)];
      Insert(SortBy(Init(s), key), Last(s), key)
  }

  /** The sorted sequence is ordered by key. */
  lemma {:induction false} SortBySorted<T>(s: seq<T>, key: T -> real)
    ensures SortedBy(SortBy(s, key), key)
  {
    if s != [] {
      SortBySorted(Init(s), key);
      InsertSorted(SortBy(Init(s), key), Last(s), key);
    }
  }

  /** The sort is stable: for every key value, the elements carrying it keep
      their relative order. */
  lemma {:induction false} SortByStable<T>(s: seq<T>, key: T -> real, k: real)
    ensures WithKey(SortBy(s, key), key, k) == WithKey(s, key, k)
  {
    if s != [] {
      SortByStable(Init(s), key, k);
      InsertStable(SortBy(Init(s), key), Last(s), key, k);
    }
  }

  lemma SortedInit<T>(s: seq<T>, key: T -> real)
    requires SortedBy(s, key) && s != []
    ensures SortedBy(Init(s), key)
  {
    var s' := Init(s);
    forall i, j | 0 <= i < j < |s'|
      ensures key(s'[i]) <= key(s'[j])
    {
      assert s'[i] == s[i] && s'[j] == s[j];
    }
  }

  lemma SortBySnoc<T>(t: seq<T>, x: T, key: T -> real)
    requires SortBy(t, key) == t
    requires t == [] || key(Last(t)) <= key(x)
    ensures SortBy(t + [x], key) == t + [x]
  {
    InitLast(t, x);
  }

  /** Sorting what is already sorted changes nothing. */
  lemma {:induction false} SortBySortedIsIdentity<T>(s: seq<T>, key: T -> real)
    requires SortedBy(s, key)
    ensures SortBy(s, key) == s
  {
    if s != [] {
      var s', l := Init(s), Last(s);
      SortedInit(s, key);
      SortBySortedIsIdentity(s', key);
      SortedLastTwo(s, key);
      assert s == s' + [l];
      SortBySnoc(s', l, key);
    }
  }

  lemma SortedLastTwo<T>(s: seq<T>, key: T -> real)
    requires SortedBy(s, key) && s != []
    ensures Init(s) == [] || key(Last(Init(s))) <= key(Last(s))
  {
    if |s| > 1 {
      assert key(s[|s| - 2]) <= key(s[|s| - 1]);
      assert Last(Init(s)) == s[|s| - 2];
    }
  }

  /** The head of a sorted sequence of reals is its least element. */
  lemma SortedHeadIsLeast(a: seq<real>, x: real)
    requires SortedBy(a, Identity) && x in multiset(a)
    ensures a[0] <= x
  {
    var j :| 0 <= j < |a| && a[j] == x;
    if j > 0 {
      assert Identity(a[0]) <= Identity(a[j]);
    }
  }

  lemma SortedTail(a: seq<real>)
    requires SortedBy(a, Identity) && a != []
    ensures SortedBy(a[1..], Identity)
  {
    forall i, j | 0 <= i < j < |a| - 1
      ensures Identity(a[1..][i]) <= Identity(a[1..][j])
    {
      assert a[1..][i] == a[i + 1] && a[1..][j] == a[j + 1];
    }
  }

  /** Two sequences of reals sorted by value with the same elements are the
      same sequence. */
  lemma {:induction false} SortedRealsUnique(a: seq<real>, b: seq<real>)
    requires SortedBy(a, Identity) && SortedBy(b, Identity)
    requires multiset(a) == multiset(b)
    ensures a == b
    decreases |a|
  {
    assert |a| == |multiset(a)| == |multiset(b)| == |b|;
    if a != [] {
      assert a[0] in multiset(a) && b[0] in multiset(b);
      SortedHeadIsLeast(a, b[0]);
      SortedHeadIsLeast(b, a[0]);
      assert a[0] == b[0];
      SameTail(a, b);
      SortedTail(a);
      SortedTail(b);
      SortedRealsUnique(a[1..], b[1..]);
    }
  }

  lemma SameTail<T>(a: seq<T>, b: seq<T>)
    requires |a| > 0 && |b| > 0 && a[0] == b[0] && multiset(a) == multiset(b)
    ensures multiset(a[1..]) == multiset(b[1..])
  {
    assert a == [a[0]] + a[1..] && b == [b[0]] + b[1..];
    calc {
      multiset(a[1..]);
      multiset(a) - multiset{a[0]};
      multiset(b) - multiset{b[0]};
      multiset(b[1..]);
    }
  }

  function Identity(x: real): real
  {
    x
  }

  /** The last element of a stable sort is the one with the largest key, and
      among the elements sharing that key it is the last in input order. */
  lemma LastOfSortBy<T>(s: seq<T>, key: T -> real)
    requires |s| > 0
    ensures var r := SortBy(s, key);
      var w := WithKey(s, key, key(Last(r)));
      (forall i :: 0 <= i < |s| ==> key(s[i]) <= key(Last(r))) &&
      |w| > 0 && Last(r) == Last(w)
  {
    var r := SortBy(s, key);
    var k := key(Last(r));
    SortBySorted(s, key);
    forall i | 0 <= i < |s|
      ensures key(s[i]) <= k
    {
      assert s[i] in multiset(r);
      var j :| 0 <= j < |r| && r[j] == s[i];
    }
    SortByStable(s, key, k);
    assert r == Init(r) + [Last(r)];
    WithKeyAppend(Init(r), [Last(r)], key, k);
    assert [Last(r)] == Init([Last(r)]) + [Last(r)];
  }

  // -----------------------------------------------------------------------

  /** pandas' unique(): the distinct values of s in order of first
      appearance. */
  function Distinct<T(==)>(s: seq<T>): (r: seq<T>)
    ensures |r| <= |s|
    ensures forall i :: 0 <= i < |r| ==> r[i] in s
    ensures forall i :: 0 <= i < |s| ==> s[i] in r
    ensures forall i, j :: 0 <= i < j < |r| ==> r[i] != r[j]
  {
    if s == [] then []
    else
      var u := Distinct(Init(s));
      if Last(s) in u then u else u + [Last(s)]
  }

  /** The first element of s always opens its list of distinct values. */
  lemma {:induction false} DistinctHead<T>(s: seq<T>)
    requires |s| > 0
    ensures |Distinct(s)| > 0 && Distinct(s)[0] == s[0]
  {
    if |s| > 1 {
      DistinctHead(Init(s));
    }
  }

  /** One more value: unique() grows by it exactly when it is new. */
  lemma DistinctSnoc<T>(s: seq<T>, x: T)
    ensures Distinct(s + [x]) == if x in Distinct(s) then Distinct(s) else Distinct(s) + [x]
  {
    InitLast(s, x);
  }

  /** Values are listed in order of first appearance: the distinct values of
      any prefix come first, in the same order. */
  lemma {:induction false} DistinctPrefix<T>(s: seq<T>, n: nat)
    requires n <= |s|
    ensures Distinct(s[..n]) <= Distinct(s)
    decreases |s|
  {
    if n == |s| {
      assert s[..n] == s;
    } else {
      var t := Init(s);
      assert t[..n] == s[..n];
      DistinctPrefix(t, n);
      DistinctInit(s);
      PrefixTransitive(Distinct(s[..n]), Distinct(t), Distinct(s));
    }
  }

  lemma DistinctInit<T>(s: seq<T>)
    requires |s| > 0
    ensures Distinct(Init(s)) <= Distinct(s)
  {
  }

  lemma PrefixTransitive<T>(a: seq<T>, b: seq<T>, c: seq<T>)
    requires a <= b && b <= c
    ensures a <= c
  {
  }

  /** A sequence of one repeated value has that value as its only distinct
      value. */
  lemma {:induction false} DistinctConstant<T>(s: seq<T>, x: T)
    requires |s| > 0 && forall i :: 0 <= i < |s| ==> s[i] == x
    ensures Distinct(s) == [x]
  {
    if |s| == 1 {
      assert Init(s) == [];
    } else {
      DistinctConstant(Init(s), x);
    }
  }
}
