/**
 * Sorting, and why sorting the entries of a map hides the order in which the runtime
 * happens to iterate over it. Used for policy rules, command line arguments and checksums.
 */
module Ordering {

  /** `before` is a strict total order on the elements of `s`. */
  ghost predicate TotalOn<T(!new)>(before: (T, T) -> bool, s: seq<T>) {
    && (forall a :: a in s ==> !before(a, a))
    && (forall a, b, c :: a in s && b in s && c in s && before(a, b) && before(b, c) ==> before(a, c))
    && (forall a, b :: a in s && b in s && a != b ==> before(a, b) || before(b, a))
  }

  ghost predicate StrictTotalOrder<K(!new)>(before: (K, K) -> bool) {
    && (forall a :: !before(a, a))
    && (forall a, b, c :: before(a, b) && before(b, c) ==> before(a, c))
    && (forall a, b :: a != b ==> before(a, b) || before(b, a))
  }

  ghost predicate Sorted<T>(s: seq<T>, before: (T, T) -> bool) {
    forall i, j :: 0 <= i < j < |s| ==> !before(s[j], s[i])
  }

  function Insert<T>(x: T, s: seq<T>, before: (T, T) -> bool): seq<T> {
    if s == [] || before(x, s[0]) then [x] + s else [s[0]] + Insert(x, s[1..], before)
  }

  /** The library sort; only its being a sort matters, see `SortIsCanonical`. */
  function Sort<T>(s: seq<T>, before: (T, T) -> bool): seq<T> {
    if s == [] then [] else Insert(s[0], Sort(s[1..], before), before)
  }

  lemma {:induction false} InsertPermutes<T>(x: T, s: seq<T>, before: (T, T) -> bool)
    ensures multiset(Insert(x, s, before)) == multiset([x] + s)
  {
    if !(s == [] || before(x, s[0])) {
      InsertPermutes(x, s[1..], before);
      assert s == [s[0]] + s[1..];
    }
  }

  lemma {:induction false} SortPermutes<T>(s: seq<T>, before: (T, T) -> bool)
    ensures multiset(Sort(s, before)) == multiset(s)
  {
    if s != [] {
      SortPermutes(s[1..], before);
      InsertPermutes(s[0], Sort(s[1..], before), before);
      assert s == [s[0]] + s[1..];
    }
  }

  lemma SameElements<T>(a: seq<T>, b: seq<T>)
    requires multiset(a) == multiset(b)
    ensures |a| == |b|
    ensures forall x :: x in a <==> x in b
  {
    assert |multiset(a)| == |a| && |multiset(b)| == |b|;
    forall x
      ensures x in a <==> x in b
    {
      assert x in a <==> x in multiset(a);
      assert x in b <==> x in multiset(b);
    }
  }

  lemma {:induction false} InsertKeepsSorted<T(!new)>(x: T, s: seq<T>, before: (T, T) -> bool)
    requires TotalOn(before, [x] + s)
    requires Sorted(s, before)
    ensures Sorted(Insert(x, s, before), before)
  {
    var t := [x] + s;
    if s == [] {
    } else if before(x, s[0]) {
      forall j | 0 <= j < |s|
        ensures !before(s[j], x)
      {
        assert x in t && s[0] in t && s[j] in t;
      }
    } else {
      var rest := Insert(x, s[1..], before);
      assert forall y :: y in [x] + s[1..] ==> y in t;
      InsertKeepsSorted(x, s[1..], before);
      InsertPermutes(x, s[1..], before);
      SameElements(rest, [x] + s[1..]);
      forall j | 0 <= j < |rest|
        ensures !before(rest[j], s[0])
      {
        assert rest[j] in [x] + s[1..];
        if rest[j] != x {
          var k :| 0 <= k < |s[1..]| && s[1..][k] == rest[j];
          assert s[k + 1] == rest[j];
        }
      }
    }
  }

  lemma {:induction false} SortSorts<T(!new)>(s: seq<T>, before: (T, T) -> bool)
    requires TotalOn(before, s)
    ensures Sorted(Sort(s, before), before)
  {
    if s != [] {
      var rest := Sort(s[1..], before);
      SortSorts(s[1..], before);
      SortPermutes(s[1..], before);
      SameElements(rest, s[1..]);
      assert forall y :: y in [s[0]] + rest ==> y in s;
      InsertKeepsSorted(s[0], rest, before);
    }
  }

  lemma SortedHeadsAgree<T(!new)>(a: seq<T>, b: seq<T>, before: (T, T) -> bool)
    requires a != [] && b != [] && a[0] in b && b[0] in a
    requires TotalOn(before, a)
    requires Sorted(a, before) && Sorted(b, before)
    ensures a[0] == b[0]
  {
  }

  /** What a sequence without its first element keeps. */
  lemma TailKeeps<T(!new)>(a: seq<T>, before: (T, T) -> bool)
    requires a != [] && TotalOn(before, a) && Sorted(a, before)
    ensures TotalOn(before, a[1..]) && Sorted(a[1..], before)
    ensures multiset(a[1..]) == multiset(a) - multiset{a[0]}
  {
    assert a == [a[0]] + a[1..];
    assert forall x :: x in a[1..] ==> x in a;
  }

  lemma {:induction false} SortedIsUnique<T(!new)>(a: seq<T>, b: seq<T>, before: (T, T) -> bool)
    requires multiset(a) == multiset(b)
    requires TotalOn(before, a)
    requires Sorted(a, before) && Sorted(b, before)
    ensures a == b
    decreases |a|
  {
    SameElements(a, b);
    if a != [] {
      assert a[0] in b && b[0] in a;
      SortedHeadsAgree(a, b, before);
      TailKeeps(a, before);
      TailKeeps(b, before);
      SortedIsUnique(a[1..], b[1..], before);
      HeadAndTail(a);
      HeadAndTail(b);
    }
  }

  lemma HeadAndTail<T>(s: seq<T>)
    requires s != []
    ensures s == [s[0]] + s[1..]
  {
  }

  /** Sorting depends only on the multiset that is sorted; any other sort gives the same sequence. */
  lemma SortIsCanonical<T(!new)>(a: seq<T>, b: seq<T>, before: (T, T) -> bool)
    requires multiset(a) == multiset(b)
    requires TotalOn(before, a)
    ensures Sort(a, before) == Sort(b, before)
  {
    SameElements(a, b);
    SortSorts(a, before);
    SortSorts(b, before);
    SortPermutes(a, before);
    SortPermutes(b, before);
    SameElements(a, Sort(a, before));
    SortedIsUnique(Sort(a, before), Sort(b, before), before);
  }

  lemma WithoutOne<T>(s: seq<T>, i: nat)
    requires i < |s|
    ensures multiset(s[..i] + s[i + 1..]) == multiset(s) - multiset{s[i]}
  {
    assert s == s[..i] + [s[i]] + s[i + 1..];
  }

  /** Where the first element of one arrangement sits in another, and what is left of both without it. */
  lemma FindFirst<T>(a: seq<T>, b: seq<T>) returns (i: nat)
    requires a != [] && multiset(a) == multiset(b)
    ensures i < |b| && b[i] == a[0]
    ensures multiset(a[1..]) == multiset(b[..i] + b[i + 1..])
  {
    SameElements(a, b);
    assert a[0] in b;
    i :| 0 <= i < |b| && b[i] == a[0];
    WithoutOne(b, i);
    WithoutOne(a, 0);
    assert a[..0] + a[1..] == a[1..];
  }

  /** Equal elements with equal images: rearranging the elements rearranges the images. */
  lemma {:induction false} ImagesPermute<T, U>(a: seq<T>, b: seq<T>, imageA: seq<U>, imageB: seq<U>)
    requires multiset(a) == multiset(b) && |a| == |imageA| && |b| == |imageB|
    requires forall i, j :: 0 <= i < |a| && 0 <= j < |b| && a[i] == b[j] ==> imageA[i] == imageB[j]
    ensures multiset(imageA) == multiset(imageB)
    decreases |a|
  {
    SameElements(a, b);
    if a != [] {
      var i := FindFirst(a, b);
      ImagesPermute(a[1..], b[..i] + b[i + 1..], imageA[1..], imageB[..i] + imageB[i + 1..]);
      assert imageA == [imageA[0]] + imageA[1..];
      assert imageB == imageB[..i] + [imageB[i]] + imageB[i + 1..];
    }
  }

  // ---------------------------------------------------------------- map entries

  /** `pairs` lists every entry of `m` exactly once, in some order. */
  ghost predicate IsEnumeration<K, V>(pairs: seq<(K, V)>, m: map<K, V>) {
    && (forall i, j :: 0 <= i < j < |pairs| ==> pairs[i].0 != pairs[j].0)
    && (forall e :: e in pairs ==> e.0 in m && m[e.0] == e.1)
    && (forall k :: k in m ==> (k, m[k]) in pairs)
  }

  /** Iterating over a map: any order may come out. */
  method ToPairs<K(==), V>(m: map<K, V>) returns (pairs: seq<(K, V)>)
    ensures IsEnumeration(pairs, m)
  {
    pairs := [];
    var todo := m.Keys;
    while todo != {}
      invariant todo <= m.Keys
      invariant IsEnumeration(pairs, map k | k in m && k !in todo :: m[k])
      decreases |todo|
    {
      var k :| k in todo;
      todo := todo - {k};
      pairs := pairs + [(k, m[k])];
    }
    assert m == map k | k in m && k !in todo :: m[k];
  }

  ghost function AnyKey<K, V>(m: map<K, V>): (k: K)
    requires m != map[]
    ensures k in m
  {
    var k :| k in m;
    k
  }

  ghost function Enumerate<K, V>(m: map<K, V>): seq<(K, V)> {
    if m == map[] then []
    else [(AnyKey(m), m[AnyKey(m)])] + Enumerate(m - {AnyKey(m)})
  }

  lemma {:induction false} EnumerateLists<K, V>(m: map<K, V>)
    ensures IsEnumeration(Enumerate(m), m)
  {
    if m != map[] {
      var k := AnyKey(m);
      EnumerateLists(m - {k});
      OneMoreEntry(k, Enumerate(m - {k}), m);
    }
  }

  lemma OneMoreEntry<K, V>(k: K, rest: seq<(K, V)>, m: map<K, V>)
    requires k in m && IsEnumeration(rest, m - {k})
    ensures IsEnumeration([(k, m[k])] + rest, m)
  {
    var all := [(k, m[k])] + rest;
    forall i, j | 0 <= i < j < |all|
      ensures all[i].0 != all[j].0
    {
      assert rest[j - 1] in rest;
    }
    forall k' | k' in m
      ensures (k', m[k']) in all
    {
      if k' == k {
        assert all[0] == (k, m[k]);
      } else {
        assert (k', (m - {k})[k']) in rest;
      }
    }
  }

  lemma {:induction false} EnumerationsPermute<K, V>(p: seq<(K, V)>, q: seq<(K, V)>, m: map<K, V>)
    requires IsEnumeration(p, m) && IsEnumeration(q, m)
    ensures multiset(p) == multiset(q)
  {
    forall e
      ensures multiset(p)[e] == multiset(q)[e]
    {
      OccursAtMostOnce(p, e);
      OccursAtMostOnce(q, e);
      assert e in p <==> e in multiset(p);
      assert e in q <==> e in multiset(q);
      if e in p {
        assert (e.0, m[e.0]) == e;
      }
      if e in q {
        assert (e.0, m[e.0]) == e;
      }
    }
  }

  lemma {:induction false} OccursAtMostOnce<K, V>(p: seq<(K, V)>, e: (K, V))
    requires forall i, j :: 0 <= i < j < |p| ==> p[i].0 != p[j].0
    ensures multiset(p)[e] <= 1
  {
    if p != [] {
      assert p == [p[0]] + p[1..];
      OccursAtMostOnce(p[1..], e);
      if p[0] == e {
        assert e !in p[1..];
      }
    }
  }

  function ByKey<K(!new), V>(before: (K, K) -> bool): ((K, V), (K, V)) -> bool {
    (left: (K, V), right: (K, V)) => before(left.0, right.0)
  }

  /** The entries of `m` in key order: what a sorted iteration yields whatever order the map is walked in. */
  ghost function SortedEntries<K(!new), V(!new)>(m: map<K, V>, before: (K, K) -> bool): seq<(K, V)> {
    Sort(Enumerate(m), ByKey(before))
  }

  lemma KeysMakeTotal<K(!new), V(!new)>(pairs: seq<(K, V)>, m: map<K, V>, before: (K, K) -> bool)
    requires StrictTotalOrder(before) && IsEnumeration(pairs, m)
    ensures TotalOn(ByKey<K, V>(before), pairs)
  {
    forall a, b | a in pairs && b in pairs && a != b
      ensures before(a.0, b.0) || before(b.0, a.0)
    {
      assert a.0 != b.0;
    }
  }

  lemma IterationOrderIsIrrelevant<K(!new), V(!new)>(pairs: seq<(K, V)>, m: map<K, V>, before: (K, K) -> bool)
    requires StrictTotalOrder(before) && IsEnumeration(pairs, m)
    ensures Sort(pairs, ByKey(before)) == SortedEntries(m, before)
  {
    EnumerateLists(m);
    EnumerationsPermute(pairs, Enumerate(m), m);
    KeysMakeTotal(pairs, m, before);
    SortIsCanonical(pairs, Enumerate(m), ByKey(before));
  }

  /** Sorted entries still enumerate the map, with strictly increasing keys. */
  lemma SortedEntriesEnumerate<K(!new), V(!new)>(m: map<K, V>, before: (K, K) -> bool)
    requires StrictTotalOrder(before)
    ensures var s := SortedEntries(m, before);
            IsEnumeration(s, m) && forall i, j :: 0 <= i < j < |s| ==> before(s[i].0, s[j].0)
  {
    EnumerateLists(m);
    var e := Enumerate(m);
    var s := SortedEntries(m, before);
    KeysMakeTotal(e, m, before);
    SortSorts(e, ByKey(before));
    SortPermutes(e, ByKey(before));
    SameElements(e, s);
    forall i, j | 0 <= i < j < |s|
      ensures s[i].0 != s[j].0
    {
      if s[i].0 == s[j].0 {
        assert s[i] in e && s[j] in e;
        OccursAtMostOnce(e, s[i]);
        TwiceInSequence(s, i, j);
      }
    }
    forall i, j | 0 <= i < j < |s|
      ensures before(s[i].0, s[j].0)
    {
      assert !ByKey<K, V>(before)(s[j], s[i]);
    }
  }

  lemma TwiceInSequence<T>(s: seq<T>, i: int, j: int)
    requires 0 <= i < j < |s| && s[i] == s[j]
    ensures multiset(s)[s[i]] >= 2
  {
    assert s == s[..i] + [s[i]] + s[i + 1..j] + [s[j]] + s[j + 1..];
  }

  // ---------------------------------------------------------------- concrete orders

  predicate IntBefore(a: int, b: int) {
    a < b
  }

  lemma IntBeforeIsTotal()
    ensures StrictTotalOrder(IntBefore)
  {
  }

  /** Lexicographic comparison of strings. */
  predicate StringBefore(a: string, b: string) {
    if b == "" then false
    else if a == "" then true
    else a[0] < b[0] || (a[0] == b[0] && StringBefore(a[1..], b[1..]))
  }

  lemma {:induction false} StringBeforeTransitive(a: string, b: string, c: string)
    requires StringBefore(a, b) && StringBefore(b, c)
    ensures StringBefore(a, c)
  {
    if a != "" && a[0] == b[0] == c[0] {
      StringBeforeTransitive(a[1..], b[1..], c[1..]);
    }
  }

  lemma {:induction false} StringBeforeTrichotomy(a: string, b: string)
    ensures !StringBefore(a, a)
    ensures a != b ==> StringBefore(a, b) || StringBefore(b, a)
  {
    if a != "" {
      StringBeforeTrichotomy(a[1..], if b == "" then "" else b[1..]);
      if b != "" && a[0] == b[0] && a != b {
        assert a == [a[0]] + a[1..] && b == [b[0]] + b[1..];
      }
    }
  }

  lemma StringBeforeIsTotal()
    ensures StrictTotalOrder(StringBefore)
  {
    forall a, b, c | StringBefore(a, b) && StringBefore(b, c)
      ensures StringBefore(a, c)
    {
      StringBeforeTransitive(a, b, c);
    }
    forall a: string, b: string
      ensures !StringBefore(a, a) && (a != b ==> StringBefore(a, b) || StringBefore(b, a))
    {
      StringBeforeTrichotomy(a, b);
    }
  }
}
