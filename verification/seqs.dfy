/** `Array.prototype.filter` over sequences, with the two facts every caller
    needs: what is kept, and that the kept elements stay in order; and the
    removal of repeated values that keying a `Map` performs. */
module Seqs {

  /** `a` can be obtained from `b` by deleting elements: it is `b` with some
      entries left out and the rest in their original order. */
  predicate IsSubseq<T(==)>(a: seq<T>, b: seq<T>)
    decreases |b|
  {
    if |a| == 0 then true
    else if |b| == 0 then false
    else if a[0] == b[0] then IsSubseq(a[1..], b[1..])
    else IsSubseq(a, b[1..])
  }

  lemma {:induction false} IsSubseqRefl<T>(a: seq<T>)
    decreases |a|
    ensures IsSubseq(a, a)
  {
    if |a| > 0 {
      IsSubseqRefl(a[1..]);
    }
  }

  /** `s.filter(p)`. */
  function Filter<T>(s: seq<T>, p: T -> bool): (r: seq<T>)
    decreases |s|
    ensures |r| <= |s|
    ensures forall i :: 0 <= i < |r| ==> r[i] in s && p(r[i])
    ensures forall i :: 0 <= i < |s| && p(s[i]) ==> s[i] in r
  {
    if |s| == 0 then []
    else if p(s[0]) then [s[0]] + Filter(s[1..], p)
    else Filter(s[1..], p)
  }

  /** The kept elements appear in their original order. */
  lemma {:induction false} FilterIsSubseq<T>(s: seq<T>, p: T -> bool)
    decreases |s|
    ensures IsSubseq(Filter(s, p), s)
  {
    if |s| > 0 {
      FilterIsSubseq(s[1..], p);
      if p(s[0]) {
        assert Filter(s, p)[1..] == Filter(s[1..], p);
      }
    }
  }

  /** Each value is kept as often as it occurs, if it passes, and not at
      all otherwise. */
  lemma {:induction false} FilterCounts<T>(s: seq<T>, p: T -> bool)
    decreases |s|
    ensures forall x :: multiset(Filter(s, p))[x] == if p(x) then multiset(s)[x] else 0
  {
    if |s| > 0 {
      FilterCounts(s[1..], p);
      assert s == [s[0]] + s[1..];
      assert multiset(s) == multiset{s[0]} + multiset(s[1..]);
      if p(s[0]) {
        assert multiset(Filter(s, p)) == multiset{s[0]} + multiset(Filter(s[1..], p));
      }
    }
  }

  /** Filtering with a predicate every element meets changes nothing. */
  lemma {:induction false} FilterKeepsAll<T>(s: seq<T>, p: T -> bool)
    requires forall i :: 0 <= i < |s| ==> p(s[i])
    decreases |s|
    ensures Filter(s, p) == s
  {
    if |s| > 0 {
      FilterKeepsAll(s[1..], p);
      assert [s[0]] + s[1..] == s;
    }
  }

  /** Filtering with a predicate no element meets leaves nothing. */
  lemma FilterDropsAll<T>(s: seq<T>, p: T -> bool)
    requires forall i :: 0 <= i < |s| ==> !p(s[i])
    ensures Filter(s, p) == []
  {
  }

  /** No value occurs twice. */
  predicate Distinct<T(==)>(s: seq<T>) {
    forall i, j :: 0 <= i < j < |s| ==> s[i] != s[j]
  }

  /** `s` with every repeated value dropped: each value stays where it first
      appears, as the keys of `new Map(...)` do. */
  function Dedup<T(==,!new)>(s: seq<T>): (r: seq<T>)
    decreases |s|
    ensures forall x :: x in r <==> x in s
    ensures Distinct(r)
  {
    if |s| == 0 then []
    else
      var init := s[..|s| - 1];
      var d := Dedup(init);
      assert s == init + [s[|s| - 1]];
      if s[|s| - 1] in d then d else d + [s[|s| - 1]]
  }

  lemma DropLastOfAppend<T>(a: seq<T>, b: seq<T>)
    requires |b| > 0
    ensures (a + b)[..|a + b| - 1] == a + b[..|b| - 1]
  {
  }

  /** One unfolding of `Dedup`, with the result for the prefix named. */
  lemma DedupStep<T(!new)>(s: seq<T>, d: seq<T>)
    requires |s| > 0 && d == Dedup(s[..|s| - 1])
    ensures Dedup(s) == if s[|s| - 1] in d then d else d + [s[|s| - 1]]
  {
  }

  /** Repeated values are kept at their first place: for a sequence without
      repeats, nothing changes. */
  lemma {:induction false} DedupOfDistinct<T(!new)>(s: seq<T>)
    requires Distinct(s)
    decreases |s|
    ensures Dedup(s) == s
  {
    if |s| > 0 {
      var init := s[..|s| - 1];
      DedupOfDistinct(init);
      assert s == init + [s[|s| - 1]];
      assert s[|s| - 1] !in init;
    }
  }

  /** The values of a prefix keep their places in the result. */
  lemma {:induction false} DedupKeepsDistinctPrefix<T(!new)>(a: seq<T>, b: seq<T>)
    requires Distinct(a)
    decreases |b|
    ensures |a| <= |Dedup(a + b)| && Dedup(a + b)[..|a|] == a
  {
    if |b| == 0 {
      assert a + b == a;
      DedupOfDistinct(a);
    } else {
      var init := b[..|b| - 1];
      DedupKeepsDistinctPrefix(a, init);
      assert (a + b)[..|a + b| - 1] == a + init;
    }
  }
}
