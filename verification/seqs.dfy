/**
 * Sequence operations that the table pipeline is built from: column-wise mapping,
 * boolean-mask filtering (pandas' `df.loc[mask]` and `dropna`) and dropping missing
 * cells of a column.
 */
module Seqs {
  import opened Wrappers

  /** Applies `f` to every element (a column-wise assignment). */
  function Map<T, U>(s: seq<T>, f: T -> U): seq<U> {
    seq(|s|, i requires 0 <= i < |s| => f(s[i]))
  }

  /** The complement of a row predicate. */
  function Not<T>(p: T -> bool): T -> bool {
    x => !p(x)
  }

  /** The elements of `s` that satisfy `p`, in their original order. */
  function Filter<T>(s: seq<T>, p: T -> bool): (r: seq<T>)
    ensures |r| <= |s|
    ensures forall i :: 0 <= i < |r| ==> p(r[i])
    decreases |s|
  {
    if s == [] then []
    else if p(s[0]) then [s[0]] + Filter(s[1..], p)
    else Filter(s[1..], p)
  }

  /** `a` is obtained from `b` by deleting some elements, keeping the order of the rest. */
  predicate IsSubsequence<T(==)>(a: seq<T>, b: seq<T>)
    decreases |b|
  {
    a == [] || (b != [] && ((a[0] == b[0] && IsSubsequence(a[1..], b[1..])) || IsSubsequence(a, b[1..])))
  }

  /** The present values of a column with missing cells, in order (`Series.dropna()`). */
  function Somes<T>(s: seq<Option<T>>): (r: seq<T>)
    ensures |r| <= |s|
    decreases |s|
  {
    if s == [] then []
    else (if s[0].Some? then [s[0].value] else []) + Somes(s[1..])
  }

  /** A subsequence never holds an element more often than the sequence it is taken from. */
  lemma {:induction false} SubsequenceMultiset<T>(a: seq<T>, b: seq<T>)
    ensures IsSubsequence(a, b) ==> multiset(a) <= multiset(b)
    decreases |b|
  {
    if a != [] && b != [] {
      assert b == [b[0]] + b[1..];
      SubsequenceMultiset(a, b[1..]);
      SubsequenceMultiset(a[1..], b[1..]);
      assert a == [a[0]] + a[1..];
    }
  }

  /** Filtering keeps the order of what it keeps. */
  lemma {:induction false} FilterIsSubsequence<T>(s: seq<T>, p: T -> bool)
    ensures IsSubsequence(Filter(s, p), s)
    decreases |s|
  {
    if s != [] {
      FilterIsSubsequence(s[1..], p);
      var r := Filter(s, p);
      if p(s[0]) {
        assert r[0] == s[0] && r[1..] == Filter(s[1..], p);
      }
    }
  }

  /** Filtering keeps every occurrence of an element that satisfies `p` and none of the others. */
  lemma {:induction false} FilterCount<T>(s: seq<T>, p: T -> bool, x: T)
    ensures multiset(Filter(s, p))[x] == if p(x) then multiset(s)[x] else 0
    decreases |s|
  {
    if s != [] {
      FilterCount(s[1..], p, x);
      assert s == [s[0]] + s[1..];
    }
  }

  /**
   * `Filter` is the only order-keeping selection that keeps exactly the elements
   * satisfying `p`: any subsequence with those multiplicities is `Filter(s, p)`.
   */
  lemma {:induction false} FilterUnique<T>(r: seq<T>, s: seq<T>, p: T -> bool)
    requires IsSubsequence(r, s)
    requires forall x :: multiset(r)[x] == if p(x) then multiset(s)[x] else 0
    ensures r == Filter(s, p)
    decreases |s|
  {
    if s != [] {
      var y := s[0];
      assert s == [y] + s[1..];
      SubsequenceMultiset(r, s[1..]);
      if p(y) {
        assert multiset(r)[y] == multiset(s[1..])[y] + 1;
        assert r != [] && r[0] == y && IsSubsequence(r[1..], s[1..]);
        assert r == [y] + r[1..];
        forall x ensures multiset(r[1..])[x] == if p(x) then multiset(s[1..])[x] else 0 {
        }
        FilterUnique(r[1..], s[1..], p);
      } else {
        assert r != [] ==> r[0] in multiset(r);
        assert IsSubsequence(r, s[1..]);
        FilterUnique(r, s[1..], p);
      }
    }
  }

  /** Applying the same mask twice selects the same rows as applying it once. */
  lemma {:induction false} FilterIdempotent<T>(s: seq<T>, p: T -> bool)
    ensures Filter(Filter(s, p), p) == Filter(s, p)
    decreases |s|
  {
    if s != [] {
      FilterIdempotent(s[1..], p);
      if p(s[0]) {
        var r := Filter(s, p);
        assert r[0] == s[0] && r[1..] == Filter(s[1..], p);
      }
    }
  }

  /** Every element is kept by exactly one of `p` and its complement. */
  lemma {:induction false} FilterPartition<T>(s: seq<T>, p: T -> bool)
    ensures |Filter(s, p)| + |Filter(s, Not(p))| == |s|
    decreases |s|
  {
    if s != [] {
      FilterPartition(s[1..], p);
    }
  }

  /** Filtering keeps everything exactly when every element satisfies `p`. */
  lemma {:induction false} FilterKeepsAll<T>(s: seq<T>, p: T -> bool)
    ensures Filter(s, p) == s <==> forall i :: 0 <= i < |s| ==> p(s[i])
    decreases |s|
  {
    if s != [] {
      FilterKeepsAll(s[1..], p);
      assert forall i :: 1 <= i < |s| ==> s[i] == s[1..][i - 1];
      if !p(s[0]) {
        assert |Filter(s, p)| < |s|;
      }
    }
  }

  /**
   * A column derivation `f` that does not change the mask's verdict commutes with
   * the filter: deriving then filtering equals filtering then deriving.
   */
  lemma {:induction false} FilterMap<T, U>(s: seq<T>, f: T -> U, p: U -> bool, q: T -> bool)
    requires forall x :: p(f(x)) == q(x)
    ensures Filter(Map(s, f), p) == Map(Filter(s, q), f)
    decreases |s|
  {
    if s != [] {
      FilterMap(s[1..], f, p, q);
      assert Map(s, f)[1..] == Map(s[1..], f);
      assert Map(s, f)[0] == f(s[0]);
      if q(s[0]) {
        assert Map(Filter(s, q), f) == [f(s[0])] + Map(Filter(s[1..], q), f);
      }
    }
  }

  /** Dropping missing cells keeps every present value with its multiplicity. */
  lemma {:induction false} SomesCount<T>(s: seq<Option<T>>, x: T)
    ensures multiset(Somes(s))[x] == multiset(s)[Some(x)]
    decreases |s|
  {
    if s != [] {
      SomesCount(s[1..], x);
      assert s == [s[0]] + s[1..];
    }
  }

  /** A column has no present value exactly when every cell is missing. */
  lemma {:induction false} SomesEmpty<T>(s: seq<Option<T>>)
    ensures Somes(s) == [] <==> forall i :: 0 <= i < |s| ==> s[i].None?
    decreases |s|
  {
    if s != [] {
      SomesEmpty(s[1..]);
      assert forall i :: 1 <= i < |s| ==> s[i] == s[1..][i - 1];
    }
  }

  /** A column with no missing cell loses nothing to `dropna()`. */
  lemma {:induction false} SomesAllPresent<T>(s: seq<Option<T>>)
    requires forall i :: 0 <= i < |s| ==> s[i].Some?
    ensures |Somes(s)| == |s|
    decreases |s|
  {
    if s != [] {
      SomesAllPresent(s[1..]);
    }
  }

  /** Two masks that agree on every element select the same elements. */
  lemma {:induction false} FilterCongruent<T>(s: seq<T>, p: T -> bool, q: T -> bool)
    requires forall i :: 0 <= i < |s| ==> p(s[i]) == q(s[i])
    ensures Filter(s, p) == Filter(s, q)
    decreases |s|
  {
    if s != [] {
      assert forall i :: 0 <= i < |s[1..]| ==> s[1..][i] == s[i + 1];
      FilterCongruent(s[1..], p, q);
    }
  }
}
