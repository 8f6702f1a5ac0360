/** The array operations the dataset manager leans on: `filter`, and `sort` with a
    comparator, stated by what they promise rather than by how the engine runs them. */
module Sequences {

  /** `r` is obtained from `s` by deleting elements, keeping the order of the rest. */
  ghost predicate IsSubsequence<T>(r: seq<T>, s: seq<T>)
    decreases |s|
  {
    || r == []
    || (s != [] && ((r[0] == s[0] && IsSubsequence(r[1..], s[1..])) || IsSubsequence(r, s[1..])))
  }

  /** `s.filter(p)`: the elements satisfying `p`, in their order, each as often as in `s`. */
  function Filter<T(!new)>(s: seq<T>, p: T -> bool): (r: seq<T>)
    ensures IsSubsequence(r, s)
    ensures forall x :: multiset(r)[x] == if p(x) then multiset(s)[x] else 0
    ensures forall i :: 0 <= i < |r| ==> p(r[i])
  {
    if s == [] then []
    else
      var rest := Filter(s[1..], p);
      assert s == [s[0]] + s[1..];
      if p(s[0]) then [s[0]] + rest else rest
  }

  /** A filter that keeps everything keeps the sequence as it is. */
  lemma {:induction false} FilterAll<T(!new)>(s: seq<T>, p: T -> bool)
    requires forall i :: 0 <= i < |s| ==> p(s[i])
    ensures Filter(s, p) == s
  {
    if s != [] {
      FilterAll(s[1..], p);
    }
  }

  /** No element occurs twice. */
  ghost predicate Distinct<T>(s: seq<T>) {
    forall i, j :: 0 <= i < j < |s| ==> s[i] != s[j]
  }

  /** Filtering a sequence without repetitions leaves none. */
  lemma {:induction false} FilterDistinct<T(!new)>(s: seq<T>, p: T -> bool)
    requires Distinct(s)
    ensures Distinct(Filter(s, p))
  {
    if s != [] {
      var t := s[1..];
      forall i, j | 0 <= i < j < |t| ensures t[i] != t[j] {
        assert t[i] == s[i + 1] && t[j] == s[j + 1];
      }
      FilterDistinct(t, p);
      var rest := Filter(t, p);
      if p(s[0]) {
        forall j | 0 <= j < |t| ensures t[j] != s[0] {
          assert t[j] == s[j + 1];
        }
        assert multiset(t)[s[0]] == 0;
        assert s[0] !in multiset(rest);
        var r := [s[0]] + rest;
        assert Filter(s, p) == r;
        forall i, j | 0 <= i < j < |r| ensures r[i] != r[j] {
          assert r[j] == rest[j - 1] && r[j] in multiset(rest);
          if i > 0 {
            assert r[i] == rest[i - 1];
          }
        }
      }
    }
  }

  ghost predicate TotalPreorder<K(!new)>(leq: (K, K) -> bool) {
    && (forall a, b :: leq(a, b) || leq(b, a))
    && (forall a, b, c :: leq(a, b) && leq(b, c) ==> leq(a, c))
  }

  /** Non-decreasing by `key` under `leq`. */
  ghost predicate SortedBy<T, K>(s: seq<T>, key: T -> K, leq: (K, K) -> bool) {
    forall i, j :: 0 <= i < j < |s| ==> leq(key(s[i]), key(s[j]))
  }

  /** A head no greater than anything after it keeps a sorted sequence sorted. */
  lemma ConsSorted<T, K>(h: T, t: seq<T>, key: T -> K, leq: (K, K) -> bool)
    requires SortedBy(t, key, leq)
    requires forall y :: y in t ==> leq(key(h), key(y))
    ensures SortedBy([h] + t, key, leq)
  {
    var r := [h] + t;
    forall i, j | 0 <= i < j < |r| ensures leq(key(r[i]), key(r[j])) {
      if i == 0 {
        assert r[j] == t[j - 1];
        assert r[j] in t;
      } else {
        assert r[i] == t[i - 1] && r[j] == t[j - 1];
      }
    }
  }

  function Insert<T, K(!new)>(x: T, s: seq<T>, key: T -> K, leq: (K, K) -> bool): (r: seq<T>)
    requires TotalPreorder(leq) && SortedBy(s, key, leq)
    ensures multiset(r) == multiset(s) + multiset{x}
    ensures SortedBy(r, key, leq)
  {
    if s == [] then [x]
    else if leq(key(x), key(s[0])) then
      ConsSorted(x, s, key, leq);
      [x] + s
    else
      var rest := Insert(x, s[1..], key, leq);
      assert s == [s[0]] + s[1..];
      assert forall y :: y in rest ==> leq(key(s[0]), key(y)) by {
        forall y | y in rest ensures leq(key(s[0]), key(y)) {
          assert y in multiset(rest);
          if y != x {
            assert y in multiset(s[1..]);
            var i :| 0 <= i < |s[1..]| && s[1..][i] == y;
            assert s[i + 1] == y;
          }
        }
      }
      ConsSorted(s[0], rest, key, leq);
      [s[0]] + rest
  }

  /** `array.sort(comparator)`, by key: a non-decreasing permutation of the input. */
  function SortBy<T, K(!new)>(s: seq<T>, key: T -> K, leq: (K, K) -> bool): (r: seq<T>)
    requires TotalPreorder(leq)
    ensures multiset(r) == multiset(s)
    ensures SortedBy(r, key, leq)
  {
    if s == [] then []
    else
      assert s == [s[0]] + s[1..];
      Insert(s[0], SortBy(s[1..], key, leq), key, leq)
  }

  /** The tail of a sorted sequence is sorted. */
  lemma SortedTail<T, K>(s: seq<T>, key: T -> K, leq: (K, K) -> bool)
    requires s != [] && SortedBy(s, key, leq)
    ensures SortedBy(s[1..], key, leq)
  {
    var t := s[1..];
    forall i, j | 0 <= i < j < |t| ensures leq(key(t[i]), key(t[j])) {
      assert t[i] == s[i + 1] && t[j] == s[j + 1];
    }
  }

  /** An element no greater than the head of a sorted sequence goes in front of it. */
  lemma InsertFront<T, K(!new)>(x: T, t: seq<T>, key: T -> K, leq: (K, K) -> bool)
    requires TotalPreorder(leq) && SortedBy(t, key, leq)
    requires t != [] ==> leq(key(x), key(t[0]))
    ensures Insert(x, t, key, leq) == [x] + t
  {
  }

  /** The step of `SortBySorted`: a sorted sequence whose tail sorts to itself sorts
      to itself. */
  lemma SortedStep<T, K(!new)>(s: seq<T>, key: T -> K, leq: (K, K) -> bool)
    requires TotalPreorder(leq) && s != [] && SortedBy(s, key, leq)
    requires SortedBy(s[1..], key, leq) && SortBy(s[1..], key, leq) == s[1..]
    ensures SortBy(s, key, leq) == s
  {
    var t := s[1..];
    if t != [] {
      assert t[0] == s[1];
    }
    InsertFront(s[0], t, key, leq);
    assert s == [s[0]] + t;
  }

  /** Sorting what is already sorted changes nothing, so sorting twice gives the
      same sequence as sorting once. */
  lemma {:induction false} SortBySorted<T, K(!new)>(s: seq<T>, key: T -> K, leq: (K, K) -> bool)
    requires TotalPreorder(leq) && SortedBy(s, key, leq)
    ensures SortBy(s, key, leq) == s
  {
    if s != [] {
      SortedTail(s, key, leq);
      SortBySorted(s[1..], key, leq);
      SortedStep(s, key, leq);
    }
  }
}
