/**
  Row selection by a boolean mask, as `frame[mask]` does it in a dataframe library:
  the result holds the rows whose mask value is true, in their original order.
  A mask is given here as the predicate that computes it row by row.
 */
module Masking {

  /** The rows of `xs` for which `keep` holds, in their original order. */
  function Where<T(!new)>(xs: seq<T>, keep: T -> bool): (r: seq<T>)
    ensures |r| <= |xs|
    ensures forall x :: x in r <==> x in xs && keep(x)
  {
    if xs == [] then []
    else if keep(xs[0]) then [xs[0]] + Where(xs[1..], keep)
    else Where(xs[1..], keep)
  }

  /** `s` can be obtained from `t` by deleting elements (greedy matching decides this). */
  predicate IsSubsequence<T(==,!new)>(s: seq<T>, t: seq<T>)
    decreases |t|
  {
    if s == [] then true
    else if t == [] then false
    else if s[0] == t[0] then IsSubsequence(s[1..], t[1..])
    else IsSubsequence(s, t[1..])
  }

  /** Masking keeps the original order: the result is a subsequence of the input. */
  lemma {:induction false} WhereIsSubsequence<T(!new)>(xs: seq<T>, keep: T -> bool)
    ensures IsSubsequence(Where(xs, keep), xs)
  {
    if xs != [] {
      var rest := Where(xs[1..], keep);
      WhereIsSubsequence(xs[1..], keep);
      if keep(xs[0]) {
        assert ([xs[0]] + rest)[1..] == rest;
      } else if rest != [] {
        assert rest[0] in rest;
        assert rest[0] != xs[0];
      }
    }
  }

  /** Masking neither drops nor duplicates a kept row: each value occurs as often as in the input
      when it passes, and not at all otherwise. */
  lemma {:induction false} WhereCount<T(!new)>(xs: seq<T>, keep: T -> bool, x: T)
    ensures multiset(Where(xs, keep))[x] == if keep(x) then multiset(xs)[x] else 0
  {
    if xs != [] {
      WhereCount(xs[1..], keep, x);
      assert xs == [xs[0]] + xs[1..];
    }
  }

  /** The mask changes nothing exactly when every row passes it. */
  lemma {:induction false} WhereKeepsAll<T(!new)>(xs: seq<T>, keep: T -> bool)
    ensures Where(xs, keep) == xs <==> forall x :: x in xs ==> keep(x)
  {
    if xs != [] {
      WhereKeepsAll(xs[1..], keep);
      if forall x :: x in xs ==> keep(x) {
        assert xs == [xs[0]] + xs[1..];
      }
    }
  }

  /** Two masks that agree on every row select the same rows. */
  lemma {:induction false} WhereCongruent<T(!new)>(xs: seq<T>, p: T -> bool, q: T -> bool)
    requires forall x :: x in xs ==> p(x) == q(x)
    ensures Where(xs, p) == Where(xs, q)
  {
    if xs != [] {
      WhereCongruent(xs[1..], p, q);
    }
  }

  /** Masking twice is masking once with the conjunction of the two masks. */
  lemma {:induction false} WhereWhere<T(!new)>(xs: seq<T>, p: T -> bool, q: T -> bool, both: T -> bool)
    requires forall x :: both(x) == (p(x) && q(x))
    ensures Where(Where(xs, p), q) == Where(xs, both)
  {
    if xs != [] {
      WhereWhere(xs[1..], p, q, both);
      if p(xs[0]) {
        assert Where(xs, p) == [xs[0]] + Where(xs[1..], p);
        assert ([xs[0]] + Where(xs[1..], p))[1..] == Where(xs[1..], p);
      }
    }
  }

  /** Applying the same mask again changes nothing. */
  lemma WhereIdempotent<T(!new)>(xs: seq<T>, keep: T -> bool)
    ensures Where(Where(xs, keep), keep) == Where(xs, keep)
  {
    WhereKeepsAll(Where(xs, keep), keep);
  }

  /** Two masks may be applied in either order. */
  lemma WhereCommutes<T(!new)>(xs: seq<T>, p: T -> bool, q: T -> bool)
    ensures Where(Where(xs, p), q) == Where(Where(xs, q), p)
  {
    var both := x => p(x) && q(x);
    WhereWhere(xs, p, q, both);
    WhereWhere(xs, q, p, both);
  }
}
