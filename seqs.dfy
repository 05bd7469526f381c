/** Sequence and string helpers shared by the model. */
module Seqs {

  /** The elements of `s` that satisfy `p`, in their order in `s`.
      Defined from the back so that extending `s` by one element extends the result by at most one. */
  function Filter<T>(s: seq<T>, p: T -> bool): (r: seq<T>)
    ensures |r| <= |s|
  {
    if s == [] then []
    else Filter(s[..|s| - 1], p) + (if p(s[|s| - 1]) then [s[|s| - 1]] else [])
  }

  lemma {:induction false} FilterMembership<T>(s: seq<T>, p: T -> bool, x: T)
    ensures x in Filter(s, p) <==> x in s && p(x)
  {
    if s != [] {
      FilterMembership(s[..|s| - 1], p, x);
      assert s == s[..|s| - 1] + [s[|s| - 1]];
    }
  }

  lemma {:induction false} FilterAppend<T>(s: seq<T>, t: seq<T>, p: T -> bool)
    ensures Filter(s + t, p) == Filter(s, p) + Filter(t, p)
    decreases |t|
  {
    if t == [] {
      assert s + t == s;
    } else {
      var t' := t[..|t| - 1];
      assert (s + t)[..|s + t| - 1] == s + t';
      FilterAppend(s, t', p);
    }
  }

  lemma PrefixStep<T>(s: seq<T>, k: nat)
    requires k < |s|
    ensures s[..k + 1] == s[..k] + [s[k]]
  {
  }

  /** Concatenation regroups freely; stated apart so that proofs about large terms need not
      rediscover it. */
  lemma AppendAssociative<T>(a: seq<T>, b: seq<T>, c: seq<T>)
    ensures a + (b + c) == (a + b) + c
  {
  }

  /** A suffix is the slice up to a later index followed by the rest. */
  lemma SuffixSplit<T>(s: seq<T>, i: int, j: int)
    requires 0 <= i <= j <= |s|
    ensures s[i..] == s[i..j] + s[j..]
  {
  }

  lemma FilterStep<T>(s: seq<T>, k: nat, p: T -> bool)
    requires k < |s|
    ensures Filter(s[..k + 1], p) == Filter(s[..k], p) + (if p(s[k]) then [s[k]] else [])
  {
    assert s[..k + 1][..k] == s[..k];
  }

  /** No element occurs twice. */
  predicate Distinct<T(==)>(s: seq<T>)
  {
    forall i, j :: 0 <= i < j < |s| ==> s[i] != s[j]
  }

  /** One more element of `s` checked against `p` extends a list made of `e` and the
      elements of `s` that passed so far. */
  lemma FilterExtend<T>(s: seq<T>, k: nat, p: T -> bool, d: seq<T>, e: seq<T>)
    requires k < |s| && d == e + Filter(s[..k], p)
    ensures (if p(s[k]) then d + [s[k]] else d) == e + Filter(s[..k + 1], p)
  {
    FilterStep(s, k, p);
  }

  lemma DistinctAppend<T>(s: seq<T>, x: T)
    requires Distinct(s) && x !in s
    ensures Distinct(s + [x])
  {
  }

  /** In a sequence without repetitions, an element does not occur before its own place. */
  lemma DistinctFresh<T>(s: seq<T>, k: nat)
    requires Distinct(s) && k < |s|
    ensures s[k] !in s[..k]
  {
    forall i | 0 <= i < k ensures s[..k][i] != s[k] {
      assert s[i] != s[k];
    }
  }

  lemma {:induction false} FilterDistinct<T>(s: seq<T>, p: T -> bool)
    requires Distinct(s)
    ensures Distinct(Filter(s, p))
  {
    if s != [] {
      var s' := s[..|s| - 1];
      FilterDistinct(s', p);
      FilterMembership(s', p, s[|s| - 1]);
    }
  }

  /** Filtering twice is filtering once by a predicate implied by both. */
  lemma {:induction false} FilterFilter<T>(s: seq<T>, p: T -> bool, q: T -> bool, r: T -> bool)
    requires forall x :: x in s ==> (r(x) <==> p(x) && q(x))
    ensures Filter(Filter(s, p), q) == Filter(s, r)
  {
    if s != [] {
      var s' := s[..|s| - 1];
      assert forall x :: x in s' ==> x in s;
      FilterFilter(s', p, q, r);
      var f, last := Filter(s', p), s[|s| - 1];
      assert last in s;
      if p(last) {
        assert (f + [last])[..|f + [last]| - 1] == f;
        assert Filter(f + [last], q) == Filter(f, q) + (if q(last) then [last] else []);
      } else {
        assert Filter(s, p) == f;
        assert !r(last);
        assert Filter(s, r) == Filter(s', r);
      }
    }
  }

  /** Two predicates that agree on `s` filter it alike. */
  lemma {:induction false} FilterCongruent<T>(s: seq<T>, p: T -> bool, q: T -> bool)
    requires forall x :: x in s ==> (p(x) <==> q(x))
    ensures Filter(s, p) == Filter(s, q)
  {
    if s != [] {
      assert forall x :: x in s[..|s| - 1] ==> x in s;
      FilterCongruent(s[..|s| - 1], p, q);
    }
  }

  /** A prefix of a filtered sequence is the filter of a prefix; the next element of the
      filtered sequence is the element of `s` right after that prefix. */
  lemma {:induction false} FilterPrefix<T>(s: seq<T>, p: T -> bool, k: nat)
    requires k < |Filter(s, p)|
    ensures exists n :: 0 <= n < |s| && Filter(s, p)[..k] == Filter(s[..n], p) && Filter(s, p)[k] == s[n]
  {
    var s' := s[..|s| - 1];
    var f' := Filter(s', p);
    if p(s[|s| - 1]) && k == |f'| {
      assert Filter(s, p)[..k] == Filter(s[..|s| - 1], p);
    } else {
      FilterPrefix(s', p, k);
      var n :| 0 <= n < |s'| && f'[..k] == Filter(s'[..n], p) && f'[k] == s'[n];
      assert s'[..n] == s[..n];
      assert Filter(s, p)[..k] == f'[..k];
    }
  }

  /** Filtering keeps a sequence whose elements all pass. */
  lemma {:induction false} FilterAll<T>(s: seq<T>, p: T -> bool)
    requires forall x :: x in s ==> p(x)
    ensures Filter(s, p) == s
  {
    if s != [] {
      assert forall x :: x in s[..|s| - 1] ==> x in s;
      FilterAll(s[..|s| - 1], p);
      assert s[|s| - 1] in s;
      assert s == s[..|s| - 1] + [s[|s| - 1]];
    }
  }

  /** Filtering empties a sequence none of whose elements passes. */
  lemma {:induction false} FilterNone<T>(s: seq<T>, p: T -> bool)
    requires forall x :: x in s ==> !p(x)
    ensures Filter(s, p) == []
  {
    if s != [] {
      assert forall x :: x in s[..|s| - 1] ==> x in s;
      FilterNone(s[..|s| - 1], p);
      assert s[|s| - 1] in s;
    }
  }

  /** The test "not an element of `s`". */
  function NotIn<T(==)>(s: seq<T>): T -> bool
  {
    x => x !in s
  }

  /** Filtering a sequence split in two filters each part. */
  lemma FilterSplit<T>(d: seq<T>, d1: seq<T>, d2: seq<T>, p: T -> bool)
    requires d == d1 + d2
    ensures Filter(d, p) == Filter(d1, p) + Filter(d2, p)
  {
    FilterAppend(d1, d2, p);
  }

  /** The first occurrence of every element of `s`, in order. */
  function Dedup<T(==)>(s: seq<T>): (r: seq<T>)
    ensures |r| <= |s|
  {
    if s == [] then []
    else
      var front := s[..|s| - 1];
      Dedup(front) + (if s[|s| - 1] in front then [] else [s[|s| - 1]])
  }

  lemma DedupStep<T>(s: seq<T>, k: nat)
    requires k < |s|
    ensures Dedup(s[..k + 1]) == Dedup(s[..k]) + (if s[k] in s[..k] then [] else [s[k]])
  {
    assert s[..k + 1][..k] == s[..k];
  }

  /** Appending elements that do not repeat among themselves adds those not seen before. */
  lemma {:induction false} DedupAppend<T>(s: seq<T>, t: seq<T>)
    requires Distinct(t)
    ensures Dedup(s + t) == Dedup(s) + Filter(t, NotIn(s))
    decreases |t|
  {
    if t == [] {
      assert s + t == s;
    } else {
      var t', b := t[..|t| - 1], t[|t| - 1];
      assert (s + t)[..|s + t| - 1] == s + t';
      DedupAppend(s, t');
      DistinctFresh(t, |t| - 1);
      assert b in s + t' <==> b in s;
    }
  }

  /** Dropping repetitions and filtering can be done in either order. */
  lemma {:induction false} FilterDedup<T>(s: seq<T>, p: T -> bool)
    ensures Filter(Dedup(s), p) == Dedup(Filter(s, p))
  {
    if s != [] {
      var f, b := s[..|s| - 1], s[|s| - 1];
      var added := if b in f then [] else [b];
      var g := Filter(f, p);
      assert Dedup(s) == Dedup(f) + added;
      FilterDedup(f, p);
      FilterAppend(Dedup(f), added, p);
      FilterMembership(f, p, b);
      FilterOne(b, p);
      if p(b) {
        assert Filter(s, p) == g + [b];
        DedupLast(g, b);
      } else {
        assert Filter(s, p) == g;
      }
    }
  }

  lemma FilterOne<T>(b: T, p: T -> bool)
    ensures Filter([b], p) == if p(b) then [b] else []
  {
    assert [b][..0] == [];
  }

  lemma DedupLast<T>(s: seq<T>, b: T)
    ensures Dedup(s + [b]) == Dedup(s) + if b in s then [] else [b]
  {
    assert (s + [b])[..|s|] == s;
  }

  /** The strings of `ss` written one after another. */
  function Concat(ss: seq<string>): (r: string)
  {
    if ss == [] then "" else Concat(ss[..|ss| - 1]) + ss[|ss| - 1]
  }

  lemma {:induction false} ConcatAppend(ss: seq<string>, ts: seq<string>)
    ensures Concat(ss + ts) == Concat(ss) + Concat(ts)
    decreases |ts|
  {
    if ts == [] {
      assert ss + ts == ss;
    } else {
      var ts', last := ts[..|ts| - 1], ts[|ts| - 1];
      assert (ss + ts)[..|ss + ts| - 1] == ss + ts';
      assert Concat(ss + ts) == Concat(ss + ts') + last;
      ConcatAppend(ss, ts');
      assert Concat(ts) == Concat(ts') + last;
      AppendAssociative(Concat(ss), Concat(ts'), last);
    }
  }

  /** `n` blanks, as Go's `strings.Repeat(" ", n)`. */
  function Spaces(n: nat): (r: string)
    ensures |r| == n && forall i :: 0 <= i < n ==> r[i] == ' '
  {
    if n == 0 then "" else Spaces(n - 1) + " "
  }

  predicate IsPrefix<T(==)>(p: seq<T>, s: seq<T>)
  {
    |p| <= |s| && s[..|p|] == p
  }
}
