/** Order-preserving filtering of sequences (LINQ `Where`) and the subsequence relation. */
module Seqs {

  /** `source.Where(keep)`: the elements that satisfy `keep`, in their original order. */
  function Filter<T>(keep: T -> bool, source: seq<T>): (r: seq<T>)
    ensures |r| <= |source|
    ensures forall i :: 0 <= i < |r| ==> keep(r[i])
  {
    if source == [] then []
    else (if keep(source[0]) then [source[0]] else []) + Filter(keep, source[1..])
  }

  /** `sub` can be obtained from `s` by deleting elements. */
  predicate IsSubsequence<T(==)>(sub: seq<T>, s: seq<T>)
    decreases |s|
  {
    sub == [] ||
    (s != [] && ((sub[0] == s[0] && IsSubsequence(sub[1..], s[1..])) || IsSubsequence(sub, s[1..])))
  }

  /** A filtered sequence is a subsequence of its source: order is preserved. */
  lemma {:induction false} FilterIsSubsequence<T>(keep: T -> bool, source: seq<T>)
    ensures IsSubsequence(Filter(keep, source), source)
  {
    if source != [] {
      var rest := Filter(keep, source[1..]);
      FilterIsSubsequence(keep, source[1..]);
      if keep(source[0]) {
        var r := Filter(keep, source);
        assert r == [source[0]] + rest;
        assert r[0] == source[0] && r[1..] == rest;
      } else {
        assert Filter(keep, source) == rest;
      }
    }
  }

  /**
   * Every occurrence of an element that satisfies `keep` survives, every other one is dropped:
   * the filter is exact, counted with multiplicity.
   */
  lemma {:induction false} FilterCount<T>(keep: T -> bool, source: seq<T>, x: T)
    ensures multiset(Filter(keep, source))[x] == if keep(x) then multiset(source)[x] else 0
  {
    if source != [] {
      FilterCount(keep, source[1..], x);
      assert source == [source[0]] + source[1..];
    }
  }

  /** Membership in a filtered sequence, both directions. */
  lemma FilterMembership<T>(keep: T -> bool, source: seq<T>, x: T)
    ensures x in Filter(keep, source) <==> x in source && keep(x)
  {
    FilterCount(keep, source, x);
    assert x in Filter(keep, source) <==> multiset(Filter(keep, source))[x] > 0;
    assert x in source <==> multiset(source)[x] > 0;
  }

  /** Filtering a sequence extended by one element extends the filtered sequence by at most that element. */
  lemma {:induction false} FilterSnoc<T>(keep: T -> bool, source: seq<T>, x: T)
    ensures Filter(keep, source + [x]) == Filter(keep, source) + (if keep(x) then [x] else [])
  {
    if source != [] {
      assert (source + [x])[1..] == source[1..] + [x];
      FilterSnoc(keep, source[1..], x);
    }
  }

  /** Nothing survives a filter that no element satisfies. */
  lemma {:induction false} FilterNone<T>(keep: T -> bool, source: seq<T>)
    requires forall i :: 0 <= i < |source| ==> !keep(source[i])
    ensures Filter(keep, source) == []
  {
    if source != [] {
      FilterNone(keep, source[1..]);
    }
  }

  /** Concatenation is associative. */
  lemma AppendAssociative<T>(a: seq<T>, b: seq<T>, c: seq<T>)
    ensures (a + b) + c == a + (b + c)
  {
  }
}
