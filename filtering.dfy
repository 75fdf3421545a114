/** Order-preserving filtering of sequences, the shape of Rust's
    `iter().filter(..).collect()`, together with an independent description
    of its result: a subsequence of the input that keeps every element the
    predicate accepts, as often as the input has it, and nothing else. */
module Filtering {

  /** `a` is obtained from `b` by deleting elements (order kept). */
  predicate IsSubseq<T(==)>(a: seq<T>, b: seq<T>)
    decreases |b|
  {
    if a == [] then true
    else if b == [] then false
    else (a[0] == b[0] && IsSubseq(a[1..], b[1..])) || IsSubseq(a, b[1..])
  }

  /** The elements of `xs` that satisfy `p`, in their original order. */
  function Filter<T>(xs: seq<T>, p: T -> bool): (r: seq<T>)
    ensures |r| <= |xs|
    ensures forall i :: 0 <= i < |r| ==> p(r[i])
    decreases |xs|
  {
    if xs == [] then []
    else if p(xs[0]) then [xs[0]] + Filter(xs[1..], p)
    else Filter(xs[1..], p)
  }

  /** The reference description of a filter's result: `r` is a subsequence of
      `xs` holding every occurrence of each accepted element and no rejected one
      (an element absent from `xs` cannot occur in a subsequence of it). */
  ghost predicate KeepsExactly<T>(r: seq<T>, xs: seq<T>, p: T -> bool)
  {
    IsSubseq(r, xs) &&
    forall i :: 0 <= i < |xs| ==> multiset(r)[xs[i]] == (if p(xs[i]) then multiset(xs)[xs[i]] else 0)
  }

  lemma {:induction false} SubseqMultiset<T>(a: seq<T>, b: seq<T>)
    requires IsSubseq(a, b)
    ensures multiset(a) <= multiset(b)
    decreases |b|
  {
    if a == [] {
    } else if a[0] == b[0] && IsSubseq(a[1..], b[1..]) {
      SubseqMultiset(a[1..], b[1..]);
      assert a == [a[0]] + a[1..];
      assert b == [b[0]] + b[1..];
    } else {
      SubseqMultiset(a, b[1..]);
      assert b == [b[0]] + b[1..];
    }
  }

  /** Dropping the head of a subsequence keeps it a subsequence. */
  lemma {:induction false} SubseqDropHead<T>(a: seq<T>, b: seq<T>)
    requires a != [] && IsSubseq(a, b)
    ensures IsSubseq(a[1..], b)
    decreases |b|
  {
    if a[0] == b[0] && IsSubseq(a[1..], b[1..]) {
    } else {
      if a[1..] != [] {
        SubseqDropHead(a, b[1..]);
      }
    }
  }

  /** When the heads agree, the tails are a subsequence of one another. */
  lemma SubseqMatchHead<T>(a: seq<T>, b: seq<T>)
    requires a != [] && b != [] && a[0] == b[0] && IsSubseq(a, b)
    ensures IsSubseq(a[1..], b[1..])
  {
    if !IsSubseq(a[1..], b[1..]) {
      SubseqDropHead(a, b[1..]);
    }
  }

  /** `Filter` meets the reference description. */
  lemma {:induction false} FilterKeepsExactly<T>(xs: seq<T>, p: T -> bool)
    ensures KeepsExactly(Filter(xs, p), xs, p)
    decreases |xs|
  {
    if xs != [] {
      var x0, rest := xs[0], xs[1..];
      FilterKeepsExactly(rest, p);
      assert xs == [x0] + rest;
      var r, r' := Filter(xs, p), Filter(rest, p);
      assert r == if p(x0) then [x0] + r' else r';
      SubseqMultiset(r', rest);
      forall i | 0 <= i < |xs|
        ensures multiset(r)[xs[i]] == (if p(xs[i]) then multiset(xs)[xs[i]] else 0)
      {
        if i > 0 {
          assert xs[i] == rest[i - 1];
        } else if x0 !in rest {
          assert multiset(rest)[x0] == 0;
        } else {
          var j :| 0 <= j < |rest| && rest[j] == x0;
          assert xs[i] == rest[j];
        }
      }
      if p(x0) {
        assert ([x0] + r')[1..] == r';
      }
    }
  }

  /** The reference description determines the result: any `r` that meets it is `Filter(xs, p)`. */
  lemma {:induction false} FilterUnique<T>(r: seq<T>, xs: seq<T>, p: T -> bool)
    requires KeepsExactly(r, xs, p)
    ensures r == Filter(xs, p)
    decreases |xs|
  {
    if xs != [] {
      var x0, rest := xs[0], xs[1..];
      assert xs == [x0] + rest;
      if p(x0) {
        assert multiset(r)[x0] == multiset(rest)[x0] + 1;
        if r == [] || r[0] != x0 {
          if r != [] {
            assert IsSubseq(r, rest);
            SubseqMultiset(r, rest);
          }
          assert false;
        }
        SubseqMatchHead(r, xs);
        var r' := r[1..];
        assert r == [x0] + r';
        forall i | 0 <= i < |rest|
          ensures multiset(r')[rest[i]] == (if p(rest[i]) then multiset(rest)[rest[i]] else 0)
        {
          assert rest[i] == xs[i + 1];
        }
        FilterUnique(r', rest, p);
      } else {
        assert multiset(r)[x0] == 0;
        if r != [] {
          assert r[0] in multiset(r);
          assert IsSubseq(r, rest);
        }
        forall i | 0 <= i < |rest|
          ensures multiset(r)[rest[i]] == (if p(rest[i]) then multiset(rest)[rest[i]] else 0)
        {
          assert rest[i] == xs[i + 1];
        }
        FilterUnique(r, rest, p);
      }
    }
  }

  /** A filter with a weaker predicate keeps at least as much, and in the same order. */
  lemma {:induction false} FilterMonotone<T>(xs: seq<T>, p: T -> bool, q: T -> bool)
    requires forall i :: 0 <= i < |xs| && p(xs[i]) ==> q(xs[i])
    ensures IsSubseq(Filter(xs, p), Filter(xs, q))
    decreases |xs|
  {
    if xs != [] {
      FilterMonotone(xs[1..], p, q);
      var fp, fq := Filter(xs[1..], p), Filter(xs[1..], q);
      if p(xs[0]) {
        assert Filter(xs, p) == [xs[0]] + fp && Filter(xs, q) == [xs[0]] + fq;
        assert ([xs[0]] + fp)[1..] == fp;
      } else if q(xs[0]) {
        assert Filter(xs, q) == [xs[0]] + fq;
        assert ([xs[0]] + fq)[1..] == fq;
      }
    }
  }

  /** A predicate that accepts every element keeps the whole sequence. */
  lemma {:induction false} FilterAll<T>(xs: seq<T>, p: T -> bool)
    requires forall i :: 0 <= i < |xs| ==> p(xs[i])
    ensures Filter(xs, p) == xs
    decreases |xs|
  {
    if xs != [] {
      FilterAll(xs[1..], p);
    }
  }

  /** A predicate that rejects every element keeps nothing. */
  lemma {:induction false} FilterNone<T>(xs: seq<T>, p: T -> bool)
    requires forall i :: 0 <= i < |xs| ==> !p(xs[i])
    ensures Filter(xs, p) == []
    decreases |xs|
  {
    if xs != [] {
      FilterNone(xs[1..], p);
    }
  }
}
