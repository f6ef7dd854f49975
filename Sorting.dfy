/**
 * `Array.prototype.sort` with a comparator: a stable sort. Any stable
 * sort yields the same order for a consistent comparator; this one is an
 * insertion sort, with a functional specification and an in-place method.
 */
module Sorting {
  import Seqs

  /** Every element goes no later than each element after it. */
  ghost predicate Sorted<T>(s: seq<T>, cmp: (T, T) -> real) {
    forall i, j :: 0 <= i < j < |s| ==> cmp(s[i], s[j]) <= 0.0
  }

  /** A comparator that is antisymmetric and whose "no later than" is transitive. */
  ghost predicate Consistent<T(!new)>(cmp: (T, T) -> real) {
    && (forall a, b :: cmp(b, a) == -cmp(a, b))
    && (forall a, b, c :: cmp(a, b) <= 0.0 && cmp(b, c) <= 0.0 ==> cmp(a, c) <= 0.0)
  }

  /**
   * Inserts `x` after the last element it does not compare strictly below,
   * scanning from the right as an insertion sort does.
   */
  function Insert<T>(x: T, s: seq<T>, cmp: (T, T) -> real): (r: seq<T>)
    ensures |r| == |s| + 1
    decreases |s|
  {
    if s == [] then [x]
    else if cmp(x, s[|s| - 1]) < 0.0 then Insert(x, s[..|s| - 1], cmp) + [s[|s| - 1]]
    else s + [x]
  }

  /** The stable sort of `s` under `cmp`. */
  function StableSort<T>(s: seq<T>, cmp: (T, T) -> real): (r: seq<T>)
    ensures |r| == |s|
  {
    if s == [] then [] else Insert(s[|s| - 1], StableSort(s[..|s| - 1], cmp), cmp)
  }

  /** Insertion adds exactly `x`. */
  lemma {:induction false} InsertPermutation<T>(x: T, s: seq<T>, cmp: (T, T) -> real)
    ensures multiset(Insert(x, s, cmp)) == multiset(s) + multiset{x}
    decreases |s|
  {
    if s != [] {
      var init, last := s[..|s| - 1], s[|s| - 1];
      assert s == init + [last];
      if cmp(x, last) < 0.0 {
        InsertPermutation(x, init, cmp);
      }
    }
  }

  /** The stable sort is a permutation of its input. */
  lemma {:induction false} StableSortPermutation<T>(s: seq<T>, cmp: (T, T) -> real)
    ensures multiset(StableSort(s, cmp)) == multiset(s)
  {
    if s != [] {
      var init, last := s[..|s| - 1], s[|s| - 1];
      assert s == init + [last];
      StableSortPermutation(init, cmp);
      InsertPermutation(last, StableSort(init, cmp), cmp);
    }
  }

  /** Appending an element that no element follows keeps a sequence sorted. */
  lemma SortedAppend<T>(s: seq<T>, y: T, cmp: (T, T) -> real)
    requires Sorted(s, cmp)
    requires forall i :: 0 <= i < |s| ==> cmp(s[i], y) <= 0.0
    ensures Sorted(s + [y], cmp)
  {
    forall i, j | 0 <= i < j < |s| + 1
      ensures cmp((s + [y])[i], (s + [y])[j]) <= 0.0
    {
      if j == |s| {
        assert (s + [y])[i] == s[i];
      }
    }
  }

  /** Inserting into a sorted sequence keeps it sorted. */
  lemma {:induction false} InsertSorted<T(!new)>(x: T, s: seq<T>, cmp: (T, T) -> real)
    requires Consistent(cmp)
    requires Sorted(s, cmp)
    ensures Sorted(Insert(x, s, cmp), cmp)
    decreases |s|
  {
    if s != [] {
      var init, last := s[..|s| - 1], s[|s| - 1];
      if cmp(x, last) < 0.0 {
        InsertSorted(x, init, cmp);
        var ins := Insert(x, init, cmp);
        InsertPermutation(x, init, cmp);
        forall i | 0 <= i < |ins|
          ensures cmp(ins[i], last) <= 0.0
        {
          var e := ins[i];
          assert e in multiset(ins);
          if e != x {
            assert e in multiset(init);
            var k :| 0 <= k < |init| && init[k] == e;
            assert s[k] == e;
          }
        }
        SortedAppend(ins, last, cmp);
      } else {
        forall i | 0 <= i < |s|
          ensures cmp(s[i], x) <= 0.0
        {
          if i < |s| - 1 {
            assert cmp(s[i], last) <= 0.0;
          }
        }
        SortedAppend(s, x, cmp);
      }
    }
  }

  /** The stable sort's output is ordered by the comparator. */
  lemma {:induction false} StableSortSorted<T(!new)>(s: seq<T>, cmp: (T, T) -> real)
    requires Consistent(cmp)
    ensures Sorted(StableSort(s, cmp), cmp)
  {
    if s != [] {
      StableSortSorted(s[..|s| - 1], cmp);
      InsertSorted(s[|s| - 1], StableSort(s[..|s| - 1], cmp), cmp);
    }
  }

  /** The test "ties with `y`". */
  function TieTest<T>(y: T, cmp: (T, T) -> real): T -> bool {
    x => cmp(x, y) == 0.0
  }

  /** The elements of `s` that tie with `y`, in their order in `s`. */
  function TiedWith<T(!new)>(s: seq<T>, y: T, cmp: (T, T) -> real): seq<T> {
    Seqs.Filter(s, TieTest(y, cmp))
  }

  /** Two elements that both tie with a third tie with each other. */
  lemma TieShared<T(!new)>(a: T, b: T, y: T, cmp: (T, T) -> real)
    requires Consistent(cmp)
    ensures cmp(a, y) == 0.0 && cmp(b, y) == 0.0 ==> cmp(a, b) == 0.0
  {
    if cmp(a, y) == 0.0 && cmp(b, y) == 0.0 {
      assert cmp(y, b) == 0.0 && cmp(y, a) == 0.0;
      assert cmp(a, b) <= 0.0;
      assert cmp(b, a) <= 0.0;
    }
  }

  /** Insertion places `x` after every element of `s` it ties with. */
  lemma {:induction false} InsertTies<T(!new)>(x: T, s: seq<T>, y: T, cmp: (T, T) -> real)
    requires Consistent(cmp)
    ensures TiedWith(Insert(x, s, cmp), y, cmp) == TiedWith(s, y, cmp) + TiedWith([x], y, cmp)
    decreases |s|
  {
    var p := TieTest(y, cmp);
    if s != [] {
      var init, last := s[..|s| - 1], s[|s| - 1];
      assert s == init + [last];
      if cmp(x, last) < 0.0 {
        var tx, tl := Seqs.Filter([x], p), Seqs.Filter([last], p);
        assert tx == [] || tl == [] by {
          Seqs.FilterSingleton(x, p);
          Seqs.FilterSingleton(last, p);
          TieShared(x, last, y, cmp);
        }
        calc {
          TiedWith(Insert(x, s, cmp), y, cmp);
          Seqs.Filter(Insert(x, init, cmp) + [last], p);
          { Seqs.FilterAppend(Insert(x, init, cmp), [last], p); }
          Seqs.Filter(Insert(x, init, cmp), p) + tl;
          { InsertTies(x, init, y, cmp); }
          Seqs.Filter(init, p) + tx + tl;
          Seqs.Filter(init, p) + tl + tx;
          { Seqs.FilterAppend(init, [last], p); }
          Seqs.Filter(s, p) + tx;
        }
      } else {
        Seqs.FilterAppend(s, [x], p);
      }
    }
  }

  /** Stability: elements that tie keep their relative order. */
  lemma {:induction false} StableSortStable<T(!new)>(s: seq<T>, y: T, cmp: (T, T) -> real)
    requires Consistent(cmp)
    ensures TiedWith(StableSort(s, cmp), y, cmp) == TiedWith(s, y, cmp)
  {
    if s != [] {
      var init, last := s[..|s| - 1], s[|s| - 1];
      assert s == init + [last];
      StableSortStable(init, y, cmp);
      InsertTies(last, StableSort(init, cmp), y, cmp);
      Seqs.FilterAppend(init, [last], TieTest(y, cmp));
    }
  }

  /**
   * Where insertion puts `x`: at position `j`, when `x` compares strictly
   * below every element from `j` on but not below the one at `j - 1`.
   */
  lemma {:induction false} InsertPlacement<T>(x: T, s: seq<T>, j: nat, cmp: (T, T) -> real)
    requires j <= |s|
    requires j == 0 || cmp(x, s[j - 1]) >= 0.0
    requires forall k :: j <= k < |s| ==> cmp(x, s[k]) < 0.0
    ensures Insert(x, s, cmp) == s[..j] + [x] + s[j..]
    decreases |s|
  {
    if j == |s| {
      assert s[..j] == s && s[j..] == [];
    } else {
      var init, last := s[..|s| - 1], s[|s| - 1];
      assert cmp(x, last) < 0.0;
      assert Insert(x, s, cmp) == Insert(x, init, cmp) + [last];
      forall k | j <= k < |init|
        ensures cmp(x, init[k]) < 0.0
      {
        assert init[k] == s[k];
      }
      assert j == 0 || init[j - 1] == s[j - 1];
      InsertPlacement(x, init, j, cmp);
      assert init[..j] == s[..j];
      assert init[j..] + [last] == s[j..];
    }
  }

  /** Array contents laid out as one insertion pass leaves them are the insertion of `x`. */
  lemma PlacedIsInsert<T>(placed: seq<T>, x: T, sorted: seq<T>, j: nat, cmp: (T, T) -> real)
    requires j <= |sorted| && |placed| == |sorted| + 1
    requires forall k :: 0 <= k < j ==> placed[k] == sorted[k]
    requires placed[j] == x
    requires forall k :: j < k <= |sorted| ==> placed[k] == sorted[k - 1]
    requires j == 0 || cmp(x, sorted[j - 1]) >= 0.0
    requires forall k :: j <= k < |sorted| ==> cmp(x, sorted[k]) < 0.0
    ensures placed == Insert(x, sorted, cmp)
  {
    InsertPlacement(x, sorted, j, cmp);
    var expected := sorted[..j] + [x] + sorted[j..];
    forall k | 0 <= k < |placed|
      ensures placed[k] == expected[k]
    {
      if k > j {
        assert expected[k] == sorted[j..][k - j - 1];
      }
    }
  }

  /** Sorting one more element of the input is inserting it into the sorted prefix. */
  lemma StableSortSnoc<T>(input: seq<T>, i: nat, cmp: (T, T) -> real)
    requires i < |input|
    ensures StableSort(input[..i + 1], cmp) == Insert(input[i], StableSort(input[..i], cmp), cmp)
  {
    assert input[..i + 1][..i] == input[..i];
  }

  /**
   * One pass of the insertion sort: `a[i]` moves left past every element
   * of the prefix `a[..i]` that it compares strictly below.
   */
  method InsertAt<T>(a: array<T>, i: nat, cmp: (T, T) -> real)
    requires i < a.Length
    modifies a
    ensures a[..i + 1] == Insert(old(a[i]), old(a[..i]), cmp)
    ensures a[i + 1..] == old(a[i + 1..])
  {
    var x := a[i];
    ghost var sorted := a[..i];
    var j := i;
    while j > 0 && cmp(x, a[j - 1]) < 0.0
      invariant 0 <= j <= i
      invariant forall k :: 0 <= k < j ==> a[k] == sorted[k]
      invariant forall k :: j < k <= i ==> a[k] == sorted[k - 1]
      invariant forall k :: i < k < a.Length ==> a[k] == old(a[k])
      invariant forall k :: j <= k < i ==> cmp(x, sorted[k]) < 0.0
    {
      a[j] := a[j - 1];
      j := j - 1;
    }
    a[j] := x;
    PlacedIsInsert(a[..i + 1], x, sorted, j, cmp);
  }

  /** Sorts `a` in place, stably. */
  method SortInPlace<T>(a: array<T>, cmp: (T, T) -> real)
    modifies a
    ensures a[..] == StableSort(old(a[..]), cmp)
  {
    ghost var input := a[..];
    var i := 0;
    while i < a.Length
      invariant 0 <= i <= a.Length
      invariant a[..i] == StableSort(input[..i], cmp)
      invariant a[i..] == input[i..]
    {
      assert a[i] == input[i] && a[i + 1..] == input[i + 1..] by {
        assert a[i..][0] == a[i] && a[i..][1..] == a[i + 1..];
        assert input[i..][0] == input[i] && input[i..][1..] == input[i + 1..];
      }
      InsertAt(a, i, cmp);
      StableSortSnoc(input, i, cmp);
      assert a[..i + 1] == StableSort(input[..i + 1], cmp);
      i := i + 1;
    }
    assert input[..a.Length] == input;
  }
}
