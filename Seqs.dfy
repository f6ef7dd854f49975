/**
 * The list idioms the front end writes inline: `xs.filter(p)` and the
 * "remove every occurrence if present, otherwise append" toggle used for
 * saved ids, room types and genders.
 */
module Seqs {

  /** `s.filter(p)`: the elements of `s` satisfying `p`, in their original order. */
  function Filter<T(!new)>(s: seq<T>, p: T -> bool): (r: seq<T>)
    ensures |r| <= |s|
    ensures forall x {:trigger multiset(r)[x]} :: multiset(r)[x] == if p(x) then multiset(s)[x] else 0
    ensures forall x {:trigger x in r} :: x in r <==> x in s && p(x)
  {
    if s == [] then []
    else
      assert s == [s[0]] + s[1..];
      (if p(s[0]) then [s[0]] else []) + Filter(s[1..], p)
  }

  /** Filtering commutes with concatenation: kept elements of an earlier part come first. */
  lemma {:induction false} FilterAppend<T(!new)>(a: seq<T>, b: seq<T>, p: T -> bool)
    ensures Filter(a + b, p) == Filter(a, p) + Filter(b, p)
  {
    if a == [] {
      assert a + b == b;
    } else {
      var head := if p(a[0]) then [a[0]] else [];
      assert (a + b)[0] == a[0];
      assert (a + b)[1..] == a[1..] + b;
      calc {
        Filter(a + b, p);
        head + Filter(a[1..] + b, p);
        { FilterAppend(a[1..], b, p); }
        head + (Filter(a[1..], p) + Filter(b, p));
        (head + Filter(a[1..], p)) + Filter(b, p);
        Filter(a, p) + Filter(b, p);
      }
    }
  }

  /** A one-element list keeps its element exactly when it passes. */
  lemma FilterSingleton<T(!new)>(x: T, p: T -> bool)
    ensures Filter([x], p) == if p(x) then [x] else []
  {
    assert [x][1..] == [];
  }

  /** A filter that every element passes returns its input unchanged. */
  lemma {:induction false} FilterKeepsAll<T(!new)>(s: seq<T>, p: T -> bool)
    requires forall x :: x in s ==> p(x)
    ensures Filter(s, p) == s
  {
    if s != [] {
      FilterKeepsAll(s[1..], p);
    }
  }

  /** Two predicates that agree on the elements of `s` filter it alike. */
  lemma {:induction false} FilterCongruent<T(!new)>(s: seq<T>, p: T -> bool, q: T -> bool)
    requires forall x :: x in s ==> p(x) == q(x)
    ensures Filter(s, p) == Filter(s, q)
  {
    if s != [] {
      FilterCongruent(s[1..], p, q);
    }
  }

  /** Filtering twice is filtering once by the conjunction `pq` of the two tests. */
  lemma {:induction false} FilterFilter<T(!new)>(s: seq<T>, p: T -> bool, q: T -> bool, pq: T -> bool)
    requires forall x :: pq(x) == (p(x) && q(x))
    ensures Filter(Filter(s, p), q) == Filter(s, pq)
  {
    if s != [] {
      var head := if p(s[0]) then [s[0]] else [];
      calc {
        Filter(Filter(s, p), q);
        Filter(head + Filter(s[1..], p), q);
        { FilterAppend(head, Filter(s[1..], p), q); }
        Filter(head, q) + Filter(Filter(s[1..], p), q);
        { FilterFilter(s[1..], p, q, pq); }
        Filter(head, q) + Filter(s[1..], pq);
        { assert Filter(head, q) == if pq(s[0]) then [s[0]] else []; }
        Filter(s, pq);
      }
    }
  }

  /** `r` can be obtained from `s` by deleting elements, keeping the order of the rest. */
  predicate IsSubsequence<T(==)>(r: seq<T>, s: seq<T>)
    decreases |s|
  {
    r == [] || (s != [] && if r[0] == s[0] then IsSubsequence(r[1..], s[1..]) else IsSubsequence(r, s[1..]))
  }

  /** What a filter keeps is a subsequence of its input. */
  lemma {:induction false} FilterIsSubsequence<T(!new)>(s: seq<T>, p: T -> bool)
    ensures IsSubsequence(Filter(s, p), s)
  {
    if s != [] {
      FilterIsSubsequence(s[1..], p);
      var r := Filter(s, p);
      if p(s[0]) {
        assert r[0] == s[0] && r[1..] == Filter(s[1..], p);
      } else {
        assert r == Filter(s[1..], p);
        if r != [] {
          assert r[0] in r;
        }
      }
    }
  }

  /** No value occurs twice. */
  ghost predicate Distinct<T(!new)>(s: seq<T>) {
    forall x :: multiset(s)[x] <= 1
  }

  /** `s.filter(y => y !== x)`: every occurrence of `x` removed, the rest untouched. */
  function Without<T(==,!new)>(s: seq<T>, x: T): (r: seq<T>)
    ensures x !in r
    ensures forall y :: y != x ==> multiset(r)[y] == multiset(s)[y]
    ensures IsSubsequence(r, s)
  {
    FilterIsSubsequence(s, y => y != x);
    Filter(s, y => y != x)
  }

  /** Removing a value that does not occur changes nothing. */
  lemma WithoutAbsent<T(!new)>(s: seq<T>, x: T)
    requires x !in s
    ensures Without(s, x) == s
  {
    FilterKeepsAll(s, y => y != x);
  }

  /**
   * `s.includes(x) ? s.filter(y => y !== x) : [...s, x]`: a present value
   * loses every occurrence, an absent one is appended at the end; no other
   * value's count changes.
   */
  function Toggle<T(==,!new)>(s: seq<T>, x: T): (r: seq<T>)
    ensures x in r <==> x !in s
    ensures forall y :: y != x ==> multiset(r)[y] == multiset(s)[y]
    ensures x !in s ==> r == s + [x]
    ensures x in s ==> IsSubsequence(r, s)
    ensures Distinct(s) ==> Distinct(r)
  {
    if x in s then Without(s, x) else s + [x]
  }

  /** Toggling an absent value twice restores the original list. */
  lemma ToggleTwiceAbsent<T(!new)>(s: seq<T>, x: T)
    requires x !in s
    ensures Toggle(Toggle(s, x), x) == s
  {
    FilterAppend(s, [x], y => y != x);
    WithoutAbsent(s, x);
  }

  /**
   * Toggling a present value twice is not the identity: every copy is
   * removed, and one copy comes back at the end.
   */
  lemma ToggleTwicePresent<T(!new)>(s: seq<T>, x: T)
    requires x in s
    ensures Toggle(Toggle(s, x), x) == Without(s, x) + [x]
  {
  }
}
