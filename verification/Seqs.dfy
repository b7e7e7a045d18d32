/** Order-preserving filter and map over sequences: the model's reading of
    LINQ `Where(...).ToList()` and `Select(...).ToList()`. */
module Seqs {

  /** Keeps the elements satisfying `keep`, in their original order. */
  function Filter<T>(keep: T -> bool, s: seq<T>): (r: seq<T>)
    ensures |r| <= |s|
    ensures forall i :: 0 <= i < |r| ==> r[i] in s && keep(r[i])
    ensures forall i :: 0 <= i < |s| && keep(s[i]) ==> s[i] in r
  {
    if |s| == 0 then []
    else if keep(s[0]) then [s[0]] + Filter(keep, s[1..])
    else Filter(keep, s[1..])
  }

  /** Applies `f` to every element, keeping length and order. */
  function Map<T, U>(f: T -> U, s: seq<T>): (r: seq<U>)
    ensures |r| == |s|
    ensures forall i :: 0 <= i < |s| ==> r[i] == f(s[i])
  {
    if |s| == 0 then [] else [f(s[0])] + Map(f, s[1..])
  }

  /** Filtering distributes over concatenation: together with the
      one-element cases this pins down that the filter keeps relative order. */
  lemma {:induction false} FilterConcat<T>(keep: T -> bool, a: seq<T>, b: seq<T>)
    ensures Filter(keep, a + b) == Filter(keep, a) + Filter(keep, b)
  {
    if |a| == 0 {
      assert a + b == b;
    } else {
      assert (a + b)[1..] == a[1..] + b;
      FilterConcat(keep, a[1..], b);
    }
  }

  /** A filter that every element passes is the identity. */
  lemma {:induction false} FilterKeepsAll<T>(keep: T -> bool, s: seq<T>)
    requires forall i :: 0 <= i < |s| ==> keep(s[i])
    ensures Filter(keep, s) == s
  {
    if |s| > 0 {
      FilterKeepsAll(keep, s[1..]);
    }
  }

  /** Filtering twice by predicates that agree on every element is filtering by
      their conjunction. */
  lemma {:induction false} FilterFilter<T>(p: T -> bool, q: T -> bool, both: T -> bool, s: seq<T>)
    requires forall x :: both(x) == (p(x) && q(x))
    ensures Filter(q, Filter(p, s)) == Filter(both, s)
  {
    if |s| > 0 {
      FilterFilter(p, q, both, s[1..]);
    }
  }

  /** Filtering after a map is mapping after filtering by the composed
      predicate. */
  lemma {:induction false} FilterMap<T, U>(f: T -> U, q: U -> bool, qf: T -> bool, s: seq<T>)
    requires forall x :: qf(x) == q(f(x))
    ensures Filter(q, Map(f, s)) == Map(f, Filter(qf, s))
  {
    if |s| > 0 {
      assert Map(f, s)[1..] == Map(f, s[1..]);
      FilterMap(f, q, qf, s[1..]);
    }
  }

  /** Every earlier element stands in relation `P` to every later one. */
  ghost predicate Pairwise<T>(P: (T, T) -> bool, s: seq<T>) {
    forall i, j :: 0 <= i < j < |s| ==> P(s[i], s[j])
  }

  /** A filter keeps every pairwise property of the elements it keeps
      (an order-preserving subsequence). */
  lemma {:induction false} FilterKeepsPairwise<T>(keep: T -> bool, P: (T, T) -> bool, s: seq<T>)
    requires Pairwise(P, s)
    ensures Pairwise(P, Filter(keep, s))
  {
    if |s| > 0 {
      var t := s[1..];
      assert Pairwise(P, t) by {
        forall i, j | 0 <= i < j < |t| ensures P(t[i], t[j]) {
          assert t[i] == s[i + 1] && t[j] == s[j + 1];
        }
      }
      FilterKeepsPairwise(keep, P, t);
      var ft := Filter(keep, t);
      var r := Filter(keep, s);
      if keep(s[0]) {
        assert r == [s[0]] + ft;
        forall j | 0 <= j < |ft| ensures P(s[0], ft[j]) {
          var m :| 0 <= m < |t| && t[m] == ft[j];
          assert s[m + 1] == ft[j];
        }
        forall i, j | 0 <= i < j < |r| ensures P(r[i], r[j]) {
          if i == 0 {
            assert r[j] == ft[j - 1];
          } else {
            assert r[i] == ft[i - 1] && r[j] == ft[j - 1];
          }
        }
      } else {
        assert r == ft;
      }
    }
  }
}
