/**
 * Frequency tables: what `Series.value_counts()` and `collections.Counter` compute,
 * and the orderings applied to them (`sort_index()`, sorting by count for
 * `value_counts()` and `Counter.most_common(n)`, then `head(n)`).
 *
 * A table is a sequence of entries, one per distinct value, in order of first
 * appearance; `SortBy` reorders it.
 */
module Counter {

  datatype Entry<K> = Entry(key: K, count: nat)

  function KeysOf<K>(t: seq<Entry<K>>): seq<K> {
    seq(|t|, i requires 0 <= i < |t| => t[i].key)
  }

  predicate DistinctKeys<K(==)>(t: seq<Entry<K>>) {
    forall i, j :: 0 <= i < j < |t| ==> t[i].key != t[j].key
  }

  predicate Positive<K>(t: seq<Entry<K>>) {
    forall i :: 0 <= i < |t| ==> t[i].count >= 1
  }

  /** The sum of the counts. */
  function Total<K>(t: seq<Entry<K>>): nat
    decreases |t|
  {
    if t == [] then 0 else t[0].count + Total(t[1..])
  }

  /** How often a table says `k` occurs: the sum of the counts of the entries keyed `k`. */
  function CountOf<K(==)>(t: seq<Entry<K>>, k: K): nat
    decreases |t|
  {
    if t == [] then 0 else (if t[0].key == k then t[0].count else 0) + CountOf(t[1..], k)
  }

  /** Records one more occurrence of `x`: increments its entry, or appends `x` with count 1. */
  function Bump<K(==)>(t: seq<Entry<K>>, x: K): seq<Entry<K>>
    decreases |t|
  {
    if t == [] then [Entry(x, 1)]
    else if t[0].key == x then [Entry(x, t[0].count + 1)] + t[1..]
    else [t[0]] + Bump(t[1..], x)
  }

  /** The occurrence count of every distinct element of `xs`, in order of first appearance. */
  function Tally<K(==)>(xs: seq<K>): seq<Entry<K>>
    decreases |xs|
  {
    if xs == [] then [] else Bump(Tally(xs[..|xs| - 1]), xs[|xs| - 1])
  }

  /** Stable insertion of `e` in front of the first entry whose rank is not smaller. */
  function Insert<K(==)>(e: Entry<K>, t: seq<Entry<K>>, rank: Entry<K> -> int): (r: seq<Entry<K>>)
    ensures |r| == |t| + 1
    ensures multiset(r) == multiset(t) + multiset{e}
    ensures forall i :: 0 <= i < |r| ==> r[i] == e || r[i] in t
    decreases |t|
  {
    if t == [] then [e]
    else if rank(e) <= rank(t[0]) then [e] + t
    else
      assert t == [t[0]] + t[1..];
      [t[0]] + Insert(e, t[1..], rank)
  }

  /** Stable insertion sort by ascending `rank`. */
  function SortBy<K(==)>(t: seq<Entry<K>>, rank: Entry<K> -> int): (r: seq<Entry<K>>)
    ensures |r| == |t|
    ensures multiset(r) == multiset(t)
    ensures forall i :: 0 <= i < |r| ==> r[i] in t
    decreases |t|
  {
    if t == [] then []
    else
      assert t == [t[0]] + t[1..];
      Insert(t[0], SortBy(t[1..], rank), rank)
  }

  predicate SortedBy<K>(t: seq<Entry<K>>, rank: Entry<K> -> int) {
    forall i, j :: 0 <= i < j < |t| ==> rank(t[i]) <= rank(t[j])
  }

  /** Rank for `sort_index()` on a table keyed by integers (years). */
  function ByKey(e: Entry<int>): int {
    e.key
  }

  /** Rank for "largest count first". */
  function ByCountDescending<K>(e: Entry<K>): int {
    -(e.count as int)
  }

  function Min(a: int, b: int): int {
    if a <= b then a else b
  }

  /** `most_common(n)` / `value_counts().head(n)`: the `n` entries with the largest counts. */
  function MostCommon<K(==)>(t: seq<Entry<K>>, n: nat): seq<Entry<K>> {
    var s := SortBy(t, ByCountDescending);
    s[..Min(n, |s|)]
  }

  // ---------------------------------------------------------------- tallying

  lemma KeysOfTail<K>(t: seq<Entry<K>>)
    requires t != []
    ensures KeysOf(t) == [t[0].key] + KeysOf(t[1..])
  {
  }

  /** `k` is listed in the table exactly when some entry has that key. */
  lemma KeyListed<K>(t: seq<Entry<K>>, k: K)
    ensures k in KeysOf(t) <==> exists i :: 0 <= i < |t| && t[i].key == k
  {
    if k in KeysOf(t) {
      var i :| 0 <= i < |t| && KeysOf(t)[i] == k;
    }
    if exists i :: 0 <= i < |t| && t[i].key == k {
      var i :| 0 <= i < |t| && t[i].key == k;
      assert KeysOf(t)[i] == k;
    }
  }

  lemma {:induction false} CountOfAbsent<K>(t: seq<Entry<K>>, k: K)
    requires k !in KeysOf(t)
    ensures CountOf(t, k) == 0
    decreases |t|
  {
    if t != [] {
      KeysOfTail(t);
      CountOfAbsent(t[1..], k);
    }
  }

  lemma {:induction false} CountOfPresent<K>(t: seq<Entry<K>>, k: K)
    requires Positive(t) && k in KeysOf(t)
    ensures CountOf(t, k) > 0
    decreases |t|
  {
    KeysOfTail(t);
    if t[0].key != k {
      CountOfPresent(t[1..], k);
    }
  }

  /** With distinct keys, an entry's count is all the table says about its key. */
  lemma {:induction false} CountOfEntry<K>(t: seq<Entry<K>>, i: nat)
    requires DistinctKeys(t) && i < |t|
    ensures CountOf(t, t[i].key) == t[i].count
    decreases |t|
  {
    KeysOfTail(t);
    if i == 0 {
      KeyListed(t[1..], t[0].key);
      CountOfAbsent(t[1..], t[0].key);
    } else {
      CountOfEntry(t[1..], i - 1);
    }
  }

  /** `Bump(t, x)` says `x` occurs once more and every other key as often as before. */
  lemma {:induction false} BumpCount<K>(t: seq<Entry<K>>, x: K, k: K)
    ensures CountOf(Bump(t, x), k) == CountOf(t, k) + (if k == x then 1 else 0)
    decreases |t|
  {
    if t != [] && t[0].key != x {
      BumpCount(t[1..], x, k);
    }
  }

  lemma {:induction false} BumpTotal<K>(t: seq<Entry<K>>, x: K)
    ensures Total(Bump(t, x)) == Total(t) + 1
    decreases |t|
  {
    if t != [] && t[0].key != x {
      BumpTotal(t[1..], x);
    }
  }

  lemma {:induction false} BumpKeys<K>(t: seq<Entry<K>>, x: K)
    ensures KeysOf(Bump(t, x)) == if x in KeysOf(t) then KeysOf(t) else KeysOf(t) + [x]
    decreases |t|
  {
    if t != [] {
      KeysOfTail(t);
      KeysOfTail(Bump(t, x));
      if t[0].key != x {
        BumpKeys(t[1..], x);
      }
    }
  }

  lemma {:induction false} BumpWellFormed<K>(t: seq<Entry<K>>, x: K)
    requires DistinctKeys(t) && Positive(t)
    ensures DistinctKeys(Bump(t, x)) && Positive(Bump(t, x))
    decreases |t|
  {
    if t != [] && t[0].key != x {
      BumpWellFormed(t[1..], x);
      BumpKeys(t[1..], x);
      var u := Bump(t[1..], x);
      forall j | 0 <= j < |u| ensures u[j].key != t[0].key {
        assert KeysOf(u)[j] == u[j].key;
        KeysOfTail(t);
        KeyListed(t[1..], t[0].key);
      }
    }
  }

  /**
   * `Counter(xs)` / `value_counts()`: one entry per distinct element, with its exact
   * number of occurrences (so at least 1), every element of `xs` listed, and the
   * counts summing to `|xs|`.
   */
  lemma {:induction false} TallySpec<K>(xs: seq<K>)
    ensures DistinctKeys(Tally(xs)) && Positive(Tally(xs))
    ensures forall x :: CountOf(Tally(xs), x) == multiset(xs)[x]
    ensures Total(Tally(xs)) == |xs|
    ensures forall x :: x in xs <==> x in KeysOf(Tally(xs))
    ensures forall i :: 0 <= i < |Tally(xs)| ==> Tally(xs)[i].count == multiset(xs)[Tally(xs)[i].key]
    decreases |xs|
  {
    var t := Tally(xs);
    if xs != [] {
      var init, last := xs[..|xs| - 1], xs[|xs| - 1];
      TallySpec(init);
      BumpWellFormed(Tally(init), last);
      BumpTotal(Tally(init), last);
      assert xs == init + [last];
    }
    forall x ensures CountOf(t, x) == multiset(xs)[x] {
      if xs != [] {
        BumpCount(Tally(xs[..|xs| - 1]), xs[|xs| - 1], x);
      }
    }
    forall i | 0 <= i < |t| ensures t[i].count == multiset(xs)[t[i].key] {
      CountOfEntry(t, i);
      assert CountOf(t, t[i].key) == multiset(xs)[t[i].key];
    }
    forall x ensures x in xs <==> x in KeysOf(t) {
      if x in KeysOf(t) {
        CountOfPresent(t, x);
      } else {
        CountOfAbsent(t, x);
      }
    }
  }

  // ---------------------------------------------------------------- sorting

  lemma {:induction false} InsertSorted<K>(e: Entry<K>, t: seq<Entry<K>>, rank: Entry<K> -> int)
    requires SortedBy(t, rank)
    ensures SortedBy(Insert(e, t, rank), rank)
    decreases |t|
  {
    if t != [] && rank(e) > rank(t[0]) {
      InsertSorted(e, t[1..], rank);
      var r := Insert(e, t, rank);
      var u := Insert(e, t[1..], rank);
      assert r == [t[0]] + u;
      forall j | 0 <= j < |u| ensures rank(t[0]) <= rank(u[j]) {
        assert u[j] in multiset(u);
        assert u[j] == e || u[j] in t[1..];
      }
    }
  }

  lemma {:induction false} InsertTotal<K>(e: Entry<K>, t: seq<Entry<K>>, rank: Entry<K> -> int)
    ensures Total(Insert(e, t, rank)) == Total(t) + e.count
    decreases |t|
  {
    if t != [] && rank(e) > rank(t[0]) {
      InsertTotal(e, t[1..], rank);
    }
  }

  lemma {:induction false} InsertDistinct<K>(e: Entry<K>, t: seq<Entry<K>>, rank: Entry<K> -> int)
    requires DistinctKeys(t) && forall i :: 0 <= i < |t| ==> t[i].key != e.key
    ensures DistinctKeys(Insert(e, t, rank))
    decreases |t|
  {
    if t != [] && rank(e) > rank(t[0]) {
      InsertDistinct(e, t[1..], rank);
      var u := Insert(e, t[1..], rank);
      forall j | 0 <= j < |u| ensures u[j].key != t[0].key {
        assert u[j] in u;
      }
    }
  }

  /**
   * Sorting a table orders it by rank, and keeps its entries, its total and the
   * distinctness of its keys.
   */
  lemma {:induction false} SortBySpec<K>(t: seq<Entry<K>>, rank: Entry<K> -> int)
    ensures SortedBy(SortBy(t, rank), rank)
    ensures Total(SortBy(t, rank)) == Total(t)
    ensures DistinctKeys(t) ==> DistinctKeys(SortBy(t, rank))
    decreases |t|
  {
    if t != [] {
      var u := SortBy(t[1..], rank);
      SortBySpec(t[1..], rank);
      InsertSorted(t[0], u, rank);
      InsertTotal(t[0], u, rank);
      if DistinctKeys(t) {
        forall j | 0 <= j < |u| ensures u[j].key != t[0].key {
          assert u[j] in u;
        }
        InsertDistinct(t[0], u, rank);
      }
    }
  }

  lemma MostCommonEntries<K>(t: seq<Entry<K>>, n: nat)
    ensures |MostCommon(t, n)| == Min(n, |t|)
    ensures forall i :: 0 <= i < |MostCommon(t, n)| ==> MostCommon(t, n)[i] in t
    ensures |t| <= n ==> multiset(MostCommon(t, n)) == multiset(t)
  {
    var s := SortBy(t, ByCountDescending);
    var r := MostCommon(t, n);
    forall i | 0 <= i < |r| ensures r[i] in t {
      assert r[i] == s[i];
    }
    if |t| <= n {
      assert r == s;
    }
  }

  lemma MostCommonOrdered<K>(t: seq<Entry<K>>, n: nat)
    ensures DistinctKeys(t) ==> DistinctKeys(MostCommon(t, n))
    ensures forall i, j :: 0 <= i < j < |MostCommon(t, n)| ==> MostCommon(t, n)[i].count >= MostCommon(t, n)[j].count
  {
    var s := SortBy(t, ByCountDescending);
    var r := MostCommon(t, n);
    SortBySpec(t, ByCountDescending);
    forall i, j | 0 <= i < j < |r| ensures r[i].count >= r[j].count {
      assert ByCountDescending(s[i]) <= ByCountDescending(s[j]);
    }
  }

  /** No entry left out of `MostCommon(t, n)` has a larger count than a listed one. */
  lemma MostCommonIsTop<K>(t: seq<Entry<K>>, n: nat, i: nat)
    requires i < |t| && t[i].key !in KeysOf(MostCommon(t, n))
    ensures forall j :: 0 <= j < |MostCommon(t, n)| ==> t[i].count <= MostCommon(t, n)[j].count
  {
    var s := SortBy(t, ByCountDescending);
    var r := MostCommon(t, n);
    SortBySpec(t, ByCountDescending);
    assert t[i] in multiset(s);
    var k :| 0 <= k < |s| && s[k] == t[i];
    forall m | 0 <= m < |r| ensures s[m].key in KeysOf(r) {
      assert KeysOf(r)[m] == s[m].key;
    }
    forall j | 0 <= j < |r| ensures t[i].count <= r[j].count {
      assert ByCountDescending(s[j]) <= ByCountDescending(s[k]);
    }
  }

  /**
   * `most_common(n)` / `value_counts().head(n)`: at most `n` entries (all of them when
   * the table is smaller), largest counts first, each taken from the table, and no
   * entry left out has a larger count than any listed one. Ties are left in no
   * promised order.
   */
  lemma MostCommonSpec<K>(t: seq<Entry<K>>, n: nat)
    ensures |MostCommon(t, n)| == Min(n, |t|)
    ensures forall i, j :: 0 <= i < j < |MostCommon(t, n)| ==> MostCommon(t, n)[i].count >= MostCommon(t, n)[j].count
    ensures forall i :: 0 <= i < |MostCommon(t, n)| ==> MostCommon(t, n)[i] in t
    ensures |t| <= n ==> multiset(MostCommon(t, n)) == multiset(t)
    ensures DistinctKeys(t) ==> DistinctKeys(MostCommon(t, n))
    ensures forall i :: 0 <= i < |t| && t[i].key !in KeysOf(MostCommon(t, n)) ==>
              forall j :: 0 <= j < |MostCommon(t, n)| ==> t[i].count <= MostCommon(t, n)[j].count
  {
    MostCommonEntries(t, n);
    MostCommonOrdered(t, n);
    forall i | 0 <= i < |t| && t[i].key !in KeysOf(MostCommon(t, n))
      ensures forall j :: 0 <= j < |MostCommon(t, n)| ==> t[i].count <= MostCommon(t, n)[j].count
    {
      MostCommonIsTop(t, n, i);
    }
  }

  // ---------------------------------------------------------------- tallies, sorted and cut

  /** A table with distinct keys has one entry per distinct key. */
  lemma {:induction false} DistinctKeysCard<K>(t: seq<Entry<K>>)
    requires DistinctKeys(t)
    ensures |set k | k in KeysOf(t)| == |t|
    decreases |t|
  {
    if t != [] {
      KeysOfTail(t);
      DistinctKeysCard(t[1..]);
      KeyListed(t[1..], t[0].key);
      assert (set k | k in KeysOf(t)) == {t[0].key} + (set k | k in KeysOf(t[1..]));
    }
  }

  /** `len(Counter(xs))`: the tally has one entry per distinct element of `xs`. */
  lemma TallySize<K>(xs: seq<K>)
    ensures |Tally(xs)| == |set x | x in xs|
  {
    TallySpec(xs);
    DistinctKeysCard(Tally(xs));
    assert (set k | k in KeysOf(Tally(xs))) == (set x | x in xs);
  }

  /** Sorting keeps the set of keys. */
  lemma SortByKeys<K>(t: seq<Entry<K>>, rank: Entry<K> -> int, k: K)
    ensures k in KeysOf(SortBy(t, rank)) <==> k in KeysOf(t)
  {
    var s := SortBy(t, rank);
    KeyListed(t, k);
    KeyListed(s, k);
    if k in KeysOf(t) {
      var i :| 0 <= i < |t| && t[i].key == k;
      assert t[i] in multiset(s);
    }
  }

  /**
   * `Counter(xs).most_common(n)` and `value_counts().head(n)` on the occurrences `xs`:
   * as many entries as `n` and the number of distinct elements allow, largest counts
   * first, distinct keys, each key an element of `xs` with its exact number of
   * occurrences; with at most `n` distinct elements every one of them is listed,
   * and an element left out never occurs more often than a listed one.
   */
  lemma TopOfTally<K>(xs: seq<K>, n: nat)
    ensures |MostCommon(Tally(xs), n)| == Min(n, |set x | x in xs|)
    ensures DistinctKeys(MostCommon(Tally(xs), n))
    ensures forall i, j :: 0 <= i < j < |MostCommon(Tally(xs), n)| ==>
              MostCommon(Tally(xs), n)[i].count >= MostCommon(Tally(xs), n)[j].count
    ensures forall i :: 0 <= i < |MostCommon(Tally(xs), n)| ==>
              && MostCommon(Tally(xs), n)[i].key in xs
              && MostCommon(Tally(xs), n)[i].count == multiset(xs)[MostCommon(Tally(xs), n)[i].key]
    ensures |set x | x in xs| <= n ==> forall x :: x in xs ==> x in KeysOf(MostCommon(Tally(xs), n))
    ensures forall x :: x in xs && x !in KeysOf(MostCommon(Tally(xs), n)) ==>
              forall j :: 0 <= j < |MostCommon(Tally(xs), n)| ==> multiset(xs)[x] <= MostCommon(Tally(xs), n)[j].count
  {
    TallySpec(xs);
    TallySize(xs);
    MostCommonSpec(Tally(xs), n);
    TopEntriesExact(xs, n);
    forall x | x in xs && x !in KeysOf(MostCommon(Tally(xs), n))
      ensures forall j :: 0 <= j < |MostCommon(Tally(xs), n)| ==> multiset(xs)[x] <= MostCommon(Tally(xs), n)[j].count
    {
      TopLeftOut(xs, n, x);
    }
    if |set x | x in xs| <= n {
      forall x | x in xs ensures x in KeysOf(MostCommon(Tally(xs), n)) {
        TopListsAll(xs, n, x);
      }
    }
  }

  lemma TopEntriesExact<K>(xs: seq<K>, n: nat)
    ensures forall i :: 0 <= i < |MostCommon(Tally(xs), n)| ==>
              && MostCommon(Tally(xs), n)[i].key in xs
              && MostCommon(Tally(xs), n)[i].count == multiset(xs)[MostCommon(Tally(xs), n)[i].key]
  {
    var t := Tally(xs);
    var r := MostCommon(t, n);
    TallySpec(xs);
    MostCommonEntries(t, n);
    forall i | 0 <= i < |r| ensures r[i].key in xs && r[i].count == multiset(xs)[r[i].key] {
      var k :| 0 <= k < |t| && t[k] == r[i];
      assert KeysOf(t)[k] == r[i].key;
    }
  }

  lemma TopLeftOut<K>(xs: seq<K>, n: nat, x: K)
    requires x in xs && x !in KeysOf(MostCommon(Tally(xs), n))
    ensures forall j :: 0 <= j < |MostCommon(Tally(xs), n)| ==> multiset(xs)[x] <= MostCommon(Tally(xs), n)[j].count
  {
    var t := Tally(xs);
    TallySpec(xs);
    KeyListed(t, x);
    var k :| 0 <= k < |t| && t[k].key == x;
    MostCommonIsTop(t, n, k);
  }

  lemma MostCommonListsAll<K>(t: seq<Entry<K>>, n: nat, k: K)
    requires |t| <= n && k in KeysOf(t)
    ensures k in KeysOf(MostCommon(t, n))
  {
    var r := MostCommon(t, n);
    MostCommonEntries(t, n);
    KeyListed(t, k);
    var i :| 0 <= i < |t| && t[i].key == k;
    assert t[i] in multiset(r);
    var m :| 0 <= m < |r| && r[m] == t[i];
    assert KeysOf(r)[m] == k;
  }

  lemma TopListsAll<K>(xs: seq<K>, n: nat, x: K)
    requires x in xs && |set y | y in xs| <= n
    ensures x in KeysOf(MostCommon(Tally(xs), n))
  {
    TallySpec(xs);
    TallySize(xs);
    MostCommonListsAll(Tally(xs), n, x);
  }

  /** `sort_index()` on a table with one entry per key lists the keys strictly ascending. */
  lemma SortByKeyStrict(t: seq<Entry<int>>)
    requires DistinctKeys(t)
    ensures forall i, j :: 0 <= i < j < |SortBy(t, ByKey)| ==> SortBy(t, ByKey)[i].key < SortBy(t, ByKey)[j].key
  {
    var r := SortBy(t, ByKey);
    SortBySpec(t, ByKey);
    forall i, j | 0 <= i < j < |r| ensures r[i].key < r[j].key {
      assert ByKey(r[i]) <= ByKey(r[j]);
    }
  }
}
