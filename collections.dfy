/** The list operations the components use on fetched rows: `filter`,
    grouping into a dictionary whose keys keep their insertion order, and a
    stable sort by a numeric key. */
module Collections {

  /** `s.filter(p)`. */
  function Filter<T(!new)>(s: seq<T>, p: T -> bool): (r: seq<T>)
    ensures |r| <= |s|
    ensures forall x :: x in r <==> x in s && p(x)
    ensures forall i :: 0 <= i < |r| ==> p(r[i])
  {
    if s == [] then []
    else (if p(s[0]) then [s[0]] else []) + Filter(s[1..], p)
  }

  /** `s.filter(p).length`. */
  function Count<T(!new)>(s: seq<T>, p: T -> bool): nat {
    |Filter(s, p)|
  }

  lemma {:induction false} FilterAppend<T(!new)>(a: seq<T>, b: seq<T>, p: T -> bool)
    ensures Filter(a + b, p) == Filter(a, p) + Filter(b, p)
  {
    if a == [] {
      assert a + b == b;
    } else {
      assert (a + b)[1..] == a[1..] + b;
      FilterAppend(a[1..], b, p);
    }
  }

  /** Filtering keeps every accepted element as often as it occurs and drops
      every other one. */
  lemma {:induction false} FilterMultiplicity<T(!new)>(s: seq<T>, p: T -> bool, x: T)
    ensures multiset(Filter(s, p))[x] == if p(x) then multiset(s)[x] else 0
    decreases |s|
  {
    if s != [] {
      FilterMultiplicity(s[1..], p, x);
      assert s == [s[0]] + s[1..];
      assert multiset(s) == multiset{s[0]} + multiset(s[1..]);
    }
  }

  /** Filtering keeps exactly the elements `p` accepts, each as often as
      before, so the kept and the dropped parts make up the input. */
  lemma FilterPartition<T(!new)>(s: seq<T>, p: T -> bool, q: T -> bool)
    requires forall x :: q(x) == !p(x)
    ensures multiset(Filter(s, p)) + multiset(Filter(s, q)) == multiset(s)
    ensures |Filter(s, p)| + |Filter(s, q)| == |s|
  {
    var mp, mq := multiset(Filter(s, p)), multiset(Filter(s, q));
    forall x ensures (mp + mq)[x] == multiset(s)[x] {
      FilterMultiplicity(s, p, x);
      FilterMultiplicity(s, q, x);
    }
    assert mp + mq == multiset(s);
    assert |mp + mq| == |multiset(s)|;
  }

  /** `Count(s, p) == |s|` exactly when every element satisfies `p`. */
  lemma {:induction false} CountAll<T(!new)>(s: seq<T>, p: T -> bool)
    ensures Count(s, p) == |s| <==> forall i :: 0 <= i < |s| ==> p(s[i])
  {
    if s != [] {
      CountAll(s[1..], p);
      if !p(s[0]) {
        assert |Filter(s[1..], p)| <= |s[1..]|;
      } else {
        assert forall i :: 1 <= i < |s| ==> s[i] == s[1..][i - 1];
      }
    }
  }

  /** `Count(s, p) == 0` exactly when no element satisfies `p`. */
  lemma {:induction false} CountNone<T(!new)>(s: seq<T>, p: T -> bool)
    ensures Count(s, p) == 0 <==> forall i :: 0 <= i < |s| ==> !p(s[i])
  {
    if s != [] {
      CountNone(s[1..], p);
      assert forall i :: 1 <= i < |s| ==> s[i] == s[1..][i - 1];
    }
  }

  // ---------------------------------------------------------------------
  // Grouping: `rows.reduce((acc, r) => { (acc[key(r)] ||= []).push(r); ... }, {})`.

  /** The keys of the grouped dictionary in insertion order (first
      appearance), which is the order `Object.keys` lists them in. */
  function Keys<T(!new), K(==,!new)>(s: seq<T>, key: T -> K): (r: seq<K>)
    ensures forall k :: k in r <==> exists i :: 0 <= i < |s| && key(s[i]) == k
    ensures forall i, j :: 0 <= i < j < |r| ==> r[i] != r[j]
    decreases |s|
  {
    if s == [] then []
    else
      var ks := Keys(s[..|s| - 1], key);
      var k := key(s[|s| - 1]);
      if k in ks then ks else ks + [k]
  }

  /** The rows grouped under key `k`, in the order they were pushed. */
  function Bucket<T(!new), K(==,!new)>(s: seq<T>, key: T -> K, k: K): (r: seq<T>)
    ensures forall x :: x in r <==> x in s && key(x) == k
    ensures forall i :: 0 <= i < |r| ==> key(r[i]) == k
    decreases |s|
  {
    if s == [] then []
    else
      var b := Bucket(s[..|s| - 1], key, k);
      assert forall x :: x in s <==> x in s[..|s| - 1] || x == s[|s| - 1];
      if key(s[|s| - 1]) == k then b + [s[|s| - 1]] else b
  }

  /** Appending one row adds it to its own key's bucket and to no other. */
  lemma BucketSnoc<T(!new), K(!new)>(s: seq<T>, x: T, key: T -> K, k: K)
    ensures Bucket(s + [x], key, k) == if key(x) == k then Bucket(s, key, k) + [x] else Bucket(s, key, k)
  {
    assert (s + [x])[..|s|] == s;
  }

  /** Appending one row adds its key at the end unless the key is listed. */
  lemma KeysSnoc<T(!new), K(!new)>(s: seq<T>, x: T, key: T -> K)
    ensures Keys(s + [x], key) == if key(x) in Keys(s, key) then Keys(s, key) else Keys(s, key) + [key(x)]
  {
    assert (s + [x])[..|s|] == s;
  }

  /** Total size of the buckets named in `ks`. */
  function SumSizes<T(!new), K(==,!new)>(s: seq<T>, key: T -> K, ks: seq<K>): nat
    decreases |ks|
  {
    if ks == [] then 0
    else SumSizes(s, key, ks[..|ks| - 1]) + |Bucket(s, key, ks[|ks| - 1])|
  }

  /** Number of occurrences of `k` in `ks`. */
  function Occurrences<K(==,!new)>(ks: seq<K>, k: K): nat
    decreases |ks|
  {
    if ks == [] then 0
    else Occurrences(ks[..|ks| - 1], k) + (if ks[|ks| - 1] == k then 1 else 0)
  }

  /** Every row lands in exactly one bucket: the bucket sizes over all keys
      add up to the number of rows. */
  lemma {:induction false} BucketSizesSum<T(!new), K(!new)>(s: seq<T>, key: T -> K)
    ensures SumSizes(s, key, Keys(s, key)) == |s|
    decreases |s|
  {
    if s != [] {
      var init, x := s[..|s| - 1], s[|s| - 1];
      assert s == init + [x];
      var ks := Keys(init, key);
      BucketSizesSum(init, key);
      SumSizesSnoc(init, x, key, ks);
      if key(x) in ks {
        OccurrencesDistinct(ks, key(x));
      } else {
        OccurrencesAbsent(ks, key(x));
        assert Keys(s, key) == ks + [key(x)];
        assert (ks + [key(x)])[..|ks|] == ks;
        BucketAbsent(init, key, key(x));
      }
    }
  }

  /** A key no row has names an empty bucket. */
  lemma {:induction false} BucketAbsent<T(!new), K(!new)>(s: seq<T>, key: T -> K, k: K)
    requires k !in Keys(s, key)
    ensures Bucket(s, key, k) == []
    decreases |s|
  {
    if s != [] {
      var init := s[..|s| - 1];
      BucketAbsent(init, key, k);
    }
  }

  /** Appending one row adds it to the buckets of every listed copy of its key. */
  lemma {:induction false} SumSizesSnoc<T(!new), K(!new)>(init: seq<T>, x: T, key: T -> K, ks: seq<K>)
    ensures SumSizes(init + [x], key, ks) == SumSizes(init, key, ks) + Occurrences(ks, key(x))
    decreases |ks|
  {
    var s := init + [x];
    assert s[..|s| - 1] == init;
    if ks != [] {
      SumSizesSnoc(init, x, key, ks[..|ks| - 1]);
    }
  }

  lemma {:induction false} OccurrencesAbsent<K(!new)>(ks: seq<K>, k: K)
    requires k !in ks
    ensures Occurrences(ks, k) == 0
    decreases |ks|
  {
    if ks != [] {
      OccurrencesAbsent(ks[..|ks| - 1], k);
    }
  }

  lemma {:induction false} OccurrencesDistinct<K(!new)>(ks: seq<K>, k: K)
    requires k in ks
    requires forall i, j :: 0 <= i < j < |ks| ==> ks[i] != ks[j]
    ensures Occurrences(ks, k) == 1
    decreases |ks|
  {
    var init := ks[..|ks| - 1];
    if ks[|ks| - 1] == k {
      OccurrencesAbsent(init, k);
    } else {
      OccurrencesDistinct(init, k);
    }
  }

  // ---------------------------------------------------------------------
  // `[...s].sort((a, b) => key(a) - key(b))`: the sort of ECMAScript 2019 is
  // stable, and an insertion sort that inserts before the first element
  // with a key not below its own is too.

  ghost predicate SortedBy<T(!new)>(s: seq<T>, key: T -> int) {
    forall i, j :: 0 <= i < j < |s| ==> key(s[i]) <= key(s[j])
  }

  function InsertBy<T(!new)>(x: T, s: seq<T>, key: T -> int): (r: seq<T>)
    requires SortedBy(s, key)
    ensures SortedBy(r, key)
    ensures multiset(r) == multiset(s) + multiset{x}
    ensures |r| == |s| + 1
    ensures forall y :: y in r ==> y == x || y in s
  {
    if s == [] || key(x) <= key(s[0]) then
      SortedCons(x, s, key);
      [x] + s
    else
      var t := InsertBy(x, s[1..], key);
      assert s == [s[0]] + s[1..];
      assert forall j :: 0 <= j < |t| ==> key(s[0]) <= key(t[j]) by {
        forall j | 0 <= j < |t| ensures key(s[0]) <= key(t[j]) {
          assert t[j] in t;
        }
      }
      SortedCons(s[0], t, key);
      [s[0]] + t
  }

  /** An element with a key not above any key of a sorted list can go in
      front of it. */
  lemma SortedCons<T(!new)>(x: T, s: seq<T>, key: T -> int)
    requires SortedBy(s, key)
    requires forall j :: 0 <= j < |s| ==> key(x) <= key(s[j])
    ensures SortedBy([x] + s, key)
  {
    var r := [x] + s;
    forall i, j | 0 <= i < j < |r| ensures key(r[i]) <= key(r[j]) {
      assert r[j] == s[j - 1];
      if i > 0 {
        assert r[i] == s[i - 1];
      }
    }
  }

  function SortBy<T(!new)>(s: seq<T>, key: T -> int): (r: seq<T>)
    ensures SortedBy(r, key)
    ensures multiset(r) == multiset(s)
    ensures |r| == |s|
  {
    if s == [] then []
    else
      assert s == [s[0]] + s[1..];
      InsertBy(s[0], SortBy(s[1..], key), key)
  }

  /** The elements whose key is `k`. */
  function KeyIs<T>(key: T -> int, k: int): T -> bool {
    (x: T) => key(x) == k
  }

  /** Inserting moves `x` only past elements with smaller keys, so among the
      elements of any one key the order is that of `[x] + s`. */
  lemma {:induction false} InsertByKeepsTies<T(!new)>(x: T, s: seq<T>, key: T -> int, k: int)
    requires SortedBy(s, key)
    ensures Filter(InsertBy(x, s, key), KeyIs(key, k)) == Filter([x] + s, KeyIs(key, k))
    decreases |s|
  {
    if s != [] && key(x) > key(s[0]) {
      InsertByStep(x, s, key);
      InsertByKeepsTies(x, s[1..], key, k);
      assert s == [s[0]] + s[1..];
      FilterSwapHead(x, s[0], InsertBy(x, s[1..], key), s[1..], KeyIs(key, k));
    }
  }

  /** Past an element with a smaller key, the insertion goes on in the rest. */
  lemma InsertByStep<T(!new)>(x: T, s: seq<T>, key: T -> int)
    requires SortedBy(s, key) && s != [] && key(x) > key(s[0])
    ensures SortedBy(s[1..], key) && InsertBy(x, s, key) == [s[0]] + InsertBy(x, s[1..], key)
  {
  }

  /** Two elements that `p` does not both accept may trade places in front
      of lists that filter alike. */
  lemma FilterSwapHead<T(!new)>(x: T, h: T, u: seq<T>, rest: seq<T>, p: T -> bool)
    requires Filter(u, p) == Filter([x] + rest, p) && !(p(x) && p(h))
    ensures Filter([h] + u, p) == Filter([x] + ([h] + rest), p)
  {
    FilterAppend([h], u, p);
    FilterAppend([x], rest, p);
    FilterAppend([h], rest, p);
    FilterAppend([x], [h] + rest, p);
    assert Filter([h], p) == if p(h) then [h] else [];
    assert Filter([x], p) == if p(x) then [x] else [];
  }

  /** Filtering keeps the list whole when every element satisfies `p`, and
      empties it when none does. */
  lemma {:induction false} FilterAllOrNone<T(!new)>(s: seq<T>, p: T -> bool)
    ensures (forall i :: 0 <= i < |s| ==> p(s[i])) ==> Filter(s, p) == s
    ensures (forall i :: 0 <= i < |s| ==> !p(s[i])) ==> Filter(s, p) == []
    decreases |s|
  {
    if s != [] {
      FilterAllOrNone(s[1..], p);
      assert forall i :: 1 <= i < |s| ==> s[i] == s[1..][i - 1];
    }
  }

  /** The sort is stable: the elements of any one key keep their order. */
  lemma {:induction false} SortByStable<T(!new)>(s: seq<T>, key: T -> int)
    ensures forall k :: Filter(SortBy(s, key), KeyIs(key, k)) == Filter(s, KeyIs(key, k))
    decreases |s|
  {
    if s != [] {
      SortByStable(s[1..], key);
      assert s == [s[0]] + s[1..];
      forall k ensures Filter(SortBy(s, key), KeyIs(key, k)) == Filter(s, KeyIs(key, k)) {
        InsertByKeepsTies(s[0], SortBy(s[1..], key), key, k);
        FilterAppend([s[0]], SortBy(s[1..], key), KeyIs(key, k));
        FilterAppend([s[0]], s[1..], KeyIs(key, k));
      }
    }
  }

  /** Sorting a list that is already in key order leaves it as it is. */
  lemma {:induction false} SortBySorted<T(!new)>(s: seq<T>, key: T -> int)
    requires SortedBy(s, key)
    ensures SortBy(s, key) == s
  {
    if s != [] {
      var rest := s[1..];
      assert SortedBy(rest, key);
      SortBySorted(rest, key);
      if rest != [] {
        assert key(s[0]) <= key(rest[0]);
      }
      assert s == [s[0]] + rest;
    }
  }
}
