/**
  The ordering primitives the option lists are built from: distinct values in order of first
  appearance (a dataframe column's `unique`), the position of a value in a list (a list's
  `index`), lexicographic string order (how Python compares `str` values) and sorting a list
  of distinct values by a strict order (Python's `sorted`, with or without a key).
 */
module Ordering {
  import opened Wrappers
  import opened Masking

  predicate Distinct<T(==)>(s: seq<T>) {
    forall i, j :: 0 <= i < j < |s| ==> s[i] != s[j]
  }

  /** The distinct values of `xs`, each kept at its first appearance. */
  function Unique<T(==)>(xs: seq<T>): (u: seq<T>)
    ensures Distinct(u)
    ensures forall i :: 0 <= i < |u| ==> u[i] in xs
    ensures forall i :: 0 <= i < |xs| ==> xs[i] in u
  {
    if xs == [] then []
    else
      var init, last := xs[..|xs| - 1], xs[|xs| - 1];
      var u := Unique(init);
      assert forall i :: 0 <= i < |init| ==> init[i] == xs[i];
      if last in u then u else u + [last]
  }

  /** The position of the first occurrence of `x` in `xs`, or `|xs|` when `x` does not occur. */
  function IndexOf<T(==)>(xs: seq<T>, x: T): (i: nat)
    ensures i <= |xs|
    ensures i < |xs| <==> x in xs
    ensures i < |xs| ==> xs[i] == x
    ensures forall j :: 0 <= j < i ==> xs[j] != x
  {
    if xs == [] then 0
    else if xs[0] == x then 0
    else 1 + IndexOf(xs[1..], x)
  }

  /** Appending an element does not move the first occurrence of an element already present. */
  lemma {:induction false} IndexOfAppend<T>(xs: seq<T>, z: T, y: T)
    requires y in xs
    ensures IndexOf(xs + [z], y) == IndexOf(xs, y)
  {
    if xs[0] != y {
      IndexOfAppend(xs[1..], z, y);
      assert (xs + [z])[1..] == xs[1..] + [z];
    }
  }

  /** `Unique` lists the values in the order of their first appearance in `xs`. */
  lemma {:induction false} UniqueInFirstAppearanceOrder<T>(xs: seq<T>)
    ensures forall i, j :: 0 <= i < j < |Unique(xs)| ==> IndexOf(xs, Unique(xs)[i]) < IndexOf(xs, Unique(xs)[j])
  {
    if xs != [] {
      var init, last := xs[..|xs| - 1], xs[|xs| - 1];
      assert xs == init + [last];
      var u := Unique(init);
      UniqueInFirstAppearanceOrder(init);
      forall y | y in u ensures IndexOf(xs, y) == IndexOf(init, y) && IndexOf(xs, y) < |init| {
        IndexOfAppend(init, last, y);
      }
      if last !in u {
        assert last !in init;
        assert IndexOf(xs, last) == |init|;
      }
    }
  }

  /** The first element of `xs` that does not occur in `known`, if any. */
  function FirstNotIn<T(==)>(xs: seq<T>, known: seq<T>): (r: Option<T>)
    ensures r.None? <==> forall i :: 0 <= i < |xs| ==> xs[i] in known
    ensures r.Some? ==> r.value in xs && r.value !in known
    ensures r.Some? ==> forall j :: 0 <= j < IndexOf(xs, r.value) ==> xs[j] in known
  {
    if xs == [] then None
    else if xs[0] !in known then Some(xs[0])
    else
      var r := FirstNotIn(xs[1..], known);
      assert forall i :: 1 <= i < |xs| ==> xs[i] == xs[1..][i - 1];
      r
  }

  /** The first distinct value missing from `known` is the value of the first element of `xs`
      missing from `known`. */
  lemma FirstNotInRowOrder<T>(xs: seq<T>, known: seq<T>)
    requires FirstNotIn(Unique(xs), known).Some?
    ensures IndexOf(xs, FirstNotIn(Unique(xs), known).value) < |xs|
    ensures forall j :: 0 <= j < IndexOf(xs, FirstNotIn(Unique(xs), known).value) ==> xs[j] in known
  {
    var u := Unique(xs);
    var missing := FirstNotIn(u, known).value;
    var q := IndexOf(u, missing);
    var k := IndexOf(xs, missing);
    UniqueInFirstAppearanceOrder(xs);
    forall j | 0 <= j < k ensures xs[j] in known {
      var p := IndexOf(u, xs[j]);
      assert p != q;
      assert p > q ==> IndexOf(xs, u[q]) < IndexOf(xs, u[p]);
      assert p < q ==> u[p] in known;
    }
  }

  /** In a list without repetitions, the position of the element at `k` is `k`. */
  lemma IndexOfDistinct<T>(xs: seq<T>, k: nat)
    requires Distinct(xs) && k < |xs|
    ensures IndexOf(xs, xs[k]) == k
  {
  }

  /** `a` and `b` agree on their first `k` characters, and at position `k` either `a` has ended
      while `b` goes on, or `a` holds the smaller code point. */
  predicate DiffersBelowAt(a: string, b: string, k: int)
  {
    0 <= k <= |a| && k < |b| && a[..k] == b[..k] && (k == |a| || a[k] < b[k])
  }

  /** Strings with different first characters can only differ first at position 0. */
  lemma DiffersBelowAtHead(a: string, b: string)
    requires a != [] && b != [] && a[0] != b[0]
    ensures (exists k :: DiffersBelowAt(a, b, k)) <==> a[0] < b[0]
  {
    if a[0] < b[0] {
      assert DiffersBelowAt(a, b, 0);
    }
    forall k | DiffersBelowAt(a, b, k) ensures a[0] < b[0] {
      if k > 0 {
        assert a[..k][0] == b[..k][0];
      }
    }
  }

  /** Strings with the same first character first differ one position later than their tails. */
  lemma DiffersBelowAtShift(a: string, b: string)
    requires a != [] && b != [] && a[0] == b[0]
    ensures (exists k :: DiffersBelowAt(a[1..], b[1..], k)) <==> (exists k :: DiffersBelowAt(a, b, k))
  {
    forall k | DiffersBelowAt(a[1..], b[1..], k) ensures DiffersBelowAt(a, b, k + 1) {
      assert a[..k + 1] == [a[0]] + a[1..][..k];
      assert b[..k + 1] == [b[0]] + b[1..][..k];
    }
    forall k | DiffersBelowAt(a, b, k) ensures k > 0 && DiffersBelowAt(a[1..], b[1..], k - 1) {
      assert a[1..][..k - 1] == a[..k][1..];
      assert b[1..][..k - 1] == b[..k][1..];
    }
  }

  /** Lexicographic order on strings by code point, a proper prefix coming first: `a` is below
      `b` exactly when, at the first position where they differ, `a` has ended or holds the
      smaller character. */
  predicate LexLess(a: string, b: string)
    ensures LexLess(a, b) <==> exists k :: DiffersBelowAt(a, b, k)
  {
    if a == [] then
      assert b != [] ==> DiffersBelowAt(a, b, 0);
      b != []
    else if b == [] then false
    else if a[0] != b[0] then
      DiffersBelowAtHead(a, b);
      a[0] < b[0]
    else
      DiffersBelowAtShift(a, b);
      LexLess(a[1..], b[1..])
  }

  lemma {:induction false} LexLessIrreflexive(a: string)
    ensures !LexLess(a, a)
  {
    if a != [] {
      LexLessIrreflexive(a[1..]);
    }
  }

  lemma {:induction false} LexLessTransitive(a: string, b: string, c: string)
    requires LexLess(a, b) && LexLess(b, c)
    ensures LexLess(a, c)
  {
    if a != [] && a[0] == b[0] && b[0] == c[0] {
      LexLessTransitive(a[1..], b[1..], c[1..]);
    }
  }

  /** Any two different strings are ordered one way or the other. */
  lemma {:induction false} LexLessTotal(a: string, b: string)
    ensures a == b || LexLess(a, b) || LexLess(b, a)
  {
    if a != [] && b != [] && a[0] == b[0] {
      LexLessTotal(a[1..], b[1..]);
      if a[1..] == b[1..] {
        assert a == [a[0]] + a[1..] && b == [b[0]] + b[1..];
      }
    }
  }

  lemma {:induction false} LexLessAsymmetric(a: string, b: string)
    requires LexLess(a, b)
    ensures !LexLess(b, a)
  {
    if a != [] && a[0] == b[0] {
      LexLessAsymmetric(a[1..], b[1..]);
    }
  }

  ghost predicate Transitive<T(!new)>(less: (T, T) -> bool) {
    forall a, b, c :: less(a, b) && less(b, c) ==> less(a, c)
  }

  ghost predicate Asymmetric<T(!new)>(less: (T, T) -> bool) {
    forall a, b :: less(a, b) ==> !less(b, a)
  }

  /** Any two different elements of `s` are ordered one way or the other by `less`. */
  ghost predicate TotalOn<T(!new)>(less: (T, T) -> bool, s: seq<T>) {
    forall a, b :: a in s && b in s && a != b ==> less(a, b) || less(b, a)
  }

  /** Each element is below its successor. */
  predicate Chained<T>(s: seq<T>, less: (T, T) -> bool) {
    forall i :: 0 <= i < |s| - 1 ==> less(s[i], s[i + 1])
  }

  /** Each element is below every later element. */
  predicate StrictlySorted<T>(s: seq<T>, less: (T, T) -> bool) {
    forall i, j :: 0 <= i < j < |s| ==> less(s[i], s[j])
  }

  /** String order is a strict order that orders any two different strings. */
  lemma StringOrder(s: seq<string>)
    ensures Transitive(LexLess) && Asymmetric(LexLess)
    ensures TotalOn(LexLess, s)
  {
    forall a, b, c | LexLess(a, b) && LexLess(b, c) ensures LexLess(a, c) {
      LexLessTransitive(a, b, c);
    }
    forall a, b | LexLess(a, b) ensures !LexLess(b, a) {
      LexLessAsymmetric(a, b);
    }
    forall a, b ensures a == b || LexLess(a, b) || LexLess(b, a) {
      LexLessTotal(a, b);
    }
  }

  /** Inserts `x` before the first element that is not below it. */
  function Insert<T>(x: T, ys: seq<T>, less: (T, T) -> bool): (r: seq<T>)
    ensures multiset(r) == multiset(ys) + multiset{x}
    ensures ys == [] ==> r == [x]
    ensures ys != [] ==> r[0] == x || r[0] == ys[0]
  {
    if ys == [] || !less(ys[0], x) then [x] + ys
    else
      assert ys == [ys[0]] + ys[1..];
      [ys[0]] + Insert(x, ys[1..], less)
  }

  /** Insertion sort: the elements of `xs` rearranged in increasing `less` order. */
  function SortBy<T>(xs: seq<T>, less: (T, T) -> bool): (r: seq<T>)
    ensures multiset(r) == multiset(xs)
  {
    if xs == [] then []
    else
      assert xs == [xs[0]] + xs[1..];
      Insert(xs[0], SortBy(xs[1..], less), less)
  }

  lemma {:induction false} InsertChained<T(!new)>(x: T, ys: seq<T>, less: (T, T) -> bool)
    requires Chained(ys, less) && x !in ys && TotalOn(less, [x] + ys)
    ensures Chained(Insert(x, ys, less), less)
  {
    if ys != [] {
      assert ys[0] in [x] + ys;
      if less(ys[0], x) {
        var tail := ys[1..];
        assert TotalOn(less, [x] + tail) by {
          forall a | a in [x] + tail ensures a in [x] + ys {
            if a != x {
              assert a in tail;
            }
          }
        }
        InsertChained(x, tail, less);
        if tail != [] {
          assert less(ys[0], ys[1]);
        }
      }
    }
  }

  /** Sorting distinct elements that `less` orders totally leaves each below its successor. */
  lemma {:induction false} SortByChained<T(!new)>(xs: seq<T>, less: (T, T) -> bool)
    requires Distinct(xs) && TotalOn(less, xs)
    ensures Chained(SortBy(xs, less), less)
  {
    if xs != [] {
      var tail := xs[1..];
      assert Distinct(tail);
      assert TotalOn(less, tail) by {
        forall a | a in tail ensures a in xs { }
      }
      SortByChained(tail, less);
      var sorted := SortBy(tail, less);
      assert xs[0] !in tail;
      assert xs[0] !in multiset(sorted);
      forall a | a in [xs[0]] + sorted ensures a in xs {
        if a != xs[0] {
          assert a in multiset(sorted);
        }
      }
      InsertChained(xs[0], sorted, less);
    }
  }

  /** For a transitive order, each-below-its-successor means sorted. */
  lemma {:induction false} ChainedSorted<T(!new)>(s: seq<T>, less: (T, T) -> bool)
    requires Transitive(less) && Chained(s, less)
    ensures StrictlySorted(s, less)
  {
    if |s| > 1 {
      ChainedSorted(s[1..], less);
      forall j | 1 <= j < |s| ensures less(s[0], s[j]) {
        if j > 1 {
          assert less(s[1], s[j]) by { assert s[1..][0] == s[1] && s[1..][j - 1] == s[j]; }
        }
      }
    }
  }

  /** Sorting distinct elements by a transitive order that orders them totally yields a
      strictly increasing list of the same elements. */
  lemma SortBySorted<T(!new)>(xs: seq<T>, less: (T, T) -> bool)
    requires Transitive(less) && Distinct(xs) && TotalOn(less, xs)
    ensures StrictlySorted(SortBy(xs, less), less)
    ensures forall x :: x in SortBy(xs, less) <==> x in xs
  {
    SortByChained(xs, less);
    ChainedSorted(SortBy(xs, less), less);
    assert forall x :: x in SortBy(xs, less) <==> x in multiset(xs);
  }

  /** Masking a sorted list leaves it sorted. */
  lemma {:induction false} WhereSorted<T(!new)>(xs: seq<T>, keep: T -> bool, less: (T, T) -> bool)
    requires StrictlySorted(xs, less)
    ensures StrictlySorted(Where(xs, keep), less)
  {
    if xs != [] {
      WhereSorted(xs[1..], keep, less);
      if keep(xs[0]) {
        var rest := Where(xs[1..], keep);
        forall j | 0 <= j < |rest| ensures less(xs[0], rest[j]) {
          assert rest[j] in xs[1..];
        }
      }
    }
  }

  /** A strictly sorted list is determined by its elements. */
  lemma {:induction false} SortedUnique<T(!new)>(xs: seq<T>, ys: seq<T>, less: (T, T) -> bool)
    requires Asymmetric(less)
    requires StrictlySorted(xs, less) && StrictlySorted(ys, less)
    requires forall x :: x in xs <==> x in ys
    ensures xs == ys
  {
    assert ys != [] ==> ys[0] in ys;
    if xs != [] {
      assert xs[0] in ys;
      assert ys[0] in xs;
      assert xs[0] == ys[0];
      forall x ensures x in xs[1..] <==> x in ys[1..] {
        if x in xs[1..] {
          var i :| 1 <= i < |xs| && xs[i] == x;
          assert less(xs[0], xs[i]);
          assert x in ys;
        }
        if x in ys[1..] {
          var j :| 1 <= j < |ys| && ys[j] == x;
          assert less(ys[0], ys[j]);
          assert x in xs;
        }
      }
      SortedUnique(xs[1..], ys[1..], less);
      assert xs == [xs[0]] + xs[1..] && ys == [ys[0]] + ys[1..];
    }
  }
}
