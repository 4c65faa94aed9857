/** `Array.prototype.filter` and the subsequence relation it establishes, and a first-match search. */
module Seqs {
  import opened Common

  /** The index of the first element satisfying `p`, or None when no element does. */
  function FindFirst<T>(s: seq<T>, p: T -> bool): (r: Option<nat>)
    ensures r.None? ==> forall i :: 0 <= i < |s| ==> !p(s[i])
    ensures r.Some? ==> r.value < |s| && p(s[r.value])
    ensures r.Some? ==> forall i :: 0 <= i < r.value ==> !p(s[i])
  {
    if s == [] then None
    else if p(s[0]) then Some(0)
    else match FindFirst(s[1..], p)
      case None => None
      case Some(i) => Some(i + 1)
  }

  /**
   * `a` can be obtained from `b` by deleting elements, keeping the rest in order.
   * Matching the head of `a` against the first equal element of `b` is complete for this.
   */
  predicate IsSubsequence<T(==)>(a: seq<T>, b: seq<T>)
    decreases |b|
  {
    if a == [] then true
    else if b == [] then false
    else if a[0] == b[0] then IsSubsequence(a[1..], b[1..])
    else IsSubsequence(a, b[1..])
  }

  /** The elements of `s` that satisfy `keep`, in their original order. */
  function Filter<T(==)>(s: seq<T>, keep: T -> bool): (r: seq<T>)
    ensures |r| <= |s|
    ensures forall i :: 0 <= i < |r| ==> r[i] in s && keep(r[i])
    ensures forall i :: 0 <= i < |s| && keep(s[i]) ==> s[i] in r
    ensures IsSubsequence(r, s)
    decreases |s|
  {
    if s == [] then []
    else
      var rest := Filter(s[1..], keep);
      assert s == [s[0]] + s[1..];
      if keep(s[0]) then
        assert ([s[0]] + rest)[1..] == rest;
        [s[0]] + rest
      else
        assert rest != [] ==> keep(rest[0]);
        rest
  }

  /** Every kept element appears in the result as often as in `s`, and no other element does. */
  lemma {:induction false} FilterCounts<T>(s: seq<T>, keep: T -> bool)
    ensures forall x :: multiset(Filter(s, keep))[x] == if keep(x) then multiset(s)[x] else 0
    decreases |s|
  {
    if s != [] {
      FilterCounts(s[1..], keep);
      assert s == [s[0]] + s[1..];
      assert multiset(s) == multiset([s[0]]) + multiset(s[1..]);
      if keep(s[0]) {
        assert Filter(s, keep) == [s[0]] + Filter(s[1..], keep);
        assert multiset(Filter(s, keep)) == multiset([s[0]]) + multiset(Filter(s[1..], keep));
      }
    }
  }

  lemma {:induction false} FilterConcat<T>(a: seq<T>, b: seq<T>, keep: T -> bool)
    ensures Filter(a + b, keep) == Filter(a, keep) + Filter(b, keep)
    decreases |a|
  {
    if a != [] {
      assert (a + b)[1..] == a[1..] + b;
      FilterConcat(a[1..], b, keep);
    } else {
      assert a + b == b;
    }
  }

  /** Filtering a list that passes the predicate everywhere returns it unchanged. */
  lemma {:induction false} FilterKeepsAll<T>(s: seq<T>, keep: T -> bool)
    requires forall i :: 0 <= i < |s| ==> keep(s[i])
    ensures Filter(s, keep) == s
    decreases |s|
  {
    if s != [] {
      FilterKeepsAll(s[1..], keep);
    }
  }

  lemma {:induction false} FilterIdempotent<T>(s: seq<T>, keep: T -> bool)
    ensures Filter(Filter(s, keep), keep) == Filter(s, keep)
  {
    var r := Filter(s, keep);
    FilterKeepsAll(r, keep);
  }

  /** Two predicates that agree on the elements of `s` select the same elements. */
  lemma {:induction false} FilterAgree<T>(s: seq<T>, k1: T -> bool, k2: T -> bool)
    requires forall i :: 0 <= i < |s| ==> k1(s[i]) == k2(s[i])
    ensures Filter(s, k1) == Filter(s, k2)
    decreases |s|
  {
    if s != [] {
      FilterAgree(s[1..], k1, k2);
    }
  }

  /** Filtering twice is filtering once by the conjunction. */
  lemma {:induction false} FilterCompose<T>(s: seq<T>, k1: T -> bool, k2: T -> bool, both: T -> bool)
    requires forall x :: both(x) == (k1(x) && k2(x))
    ensures Filter(Filter(s, k1), k2) == Filter(s, both)
    decreases |s|
  {
    if s != [] {
      FilterCompose(s[1..], k1, k2, both);
    }
  }

  /** Exchanging two neighbours that are not both kept does not change what is kept. */
  lemma FilterSwapNeighbours<T>(s: seq<T>, k: nat, keep: T -> bool)
    requires k + 1 < |s|
    requires !(keep(s[k]) && keep(s[k + 1]))
    ensures Filter(s[k := s[k + 1]][k + 1 := s[k]], keep) == Filter(s, keep)
  {
    var t := s[k := s[k + 1]][k + 1 := s[k]];
    assert s == s[..k] + ([s[k], s[k + 1]] + s[k + 2..]);
    assert t == s[..k] + ([s[k + 1], s[k]] + s[k + 2..]);
    FilterConcat(s[..k], [s[k], s[k + 1]] + s[k + 2..], keep);
    FilterConcat(s[..k], [s[k + 1], s[k]] + s[k + 2..], keep);
    FilterConcat([s[k], s[k + 1]], s[k + 2..], keep);
    FilterConcat([s[k + 1], s[k]], s[k + 2..], keep);
    FilterConcat([s[k]], [s[k + 1]], keep);
    FilterConcat([s[k + 1]], [s[k]], keep);
    assert [s[k], s[k + 1]] == [s[k]] + [s[k + 1]];
    assert [s[k + 1], s[k]] == [s[k + 1]] + [s[k]];
  }
}
