/**
 * The orderings of the catalogue: the comparators passed to `Array.sort`
 * for the filtered listing and for the featured strip.
 */
module Ranking {
  import opened Wrappers
  import opened Types
  import Seqs
  import Sorting

  /** Distance given to a room whose distance is missing. */
  const Sentinel: real := 9999.0

  /**
   * Which secondary key the comparator uses once availability ties:
   * price (the default), effective distance (near-me mode), or none
   * (the featured strip).
   */
  datatype SortMode = ByPrice | ByDistance | ByAvailability

  /**
   * `room.distance || 9999`. JavaScript's `||` replaces every falsy
   * number, so a computed distance of exactly 0 also becomes the sentinel.
   */
  function EffectiveDistance(d: Option<real>): (r: real)
    ensures d.Some? ==> (r == d.value <==> d.value != 0.0)
    ensures d.None? || d.value == 0.0 ==> r == Sentinel
  {
    if d.None? || d.value == 0.0 then Sentinel else d.value
  }

  /**
   * The comparator: negative when `a` goes first, positive when `b` does,
   * zero on a tie. Available rooms always go first; then the mode's key.
   */
  function Compare(a: Room, b: Room, mode: SortMode): (r: real)
    ensures a.isAvailable != b.isAvailable ==> r != 0.0 && (r < 0.0 <==> a.isAvailable)
    ensures a.isAvailable == b.isAvailable ==> match mode
      case ByPrice => (r < 0.0 <==> a.price < b.price) && (r == 0.0 <==> a.price == b.price)
      case ByDistance =>
        var da, db := EffectiveDistance(a.distance), EffectiveDistance(b.distance);
        (r < 0.0 <==> da < db) && (r == 0.0 <==> da == db)
      case ByAvailability => r == 0.0
  {
    if a.isAvailable != b.isAvailable then
      (if a.isAvailable then -1.0 else 1.0)
    else
      match mode
      case ByPrice => (a.price - b.price) as real
      case ByDistance => EffectiveDistance(a.distance) - EffectiveDistance(b.distance)
      case ByAvailability => 0.0
  }

  /** The comparator of `mode` as the function value handed to the sort. */
  function Comparator(mode: SortMode): (Room, Room) -> real {
    (a: Room, b: Room) => Compare(a, b, mode)
  }

  /** Each mode's comparator is antisymmetric and transitive, so the sort is well defined. */
  lemma ComparatorConsistent(mode: SortMode)
    ensures Sorting.Consistent(Comparator(mode))
  {
    var cmp := Comparator(mode);
    forall a, b
      ensures cmp(b, a) == -cmp(a, b)
    {
      assert cmp(a, b) == Compare(a, b, mode) && cmp(b, a) == Compare(b, a, mode);
    }
    forall a, b, c | cmp(a, b) <= 0.0 && cmp(b, c) <= 0.0
      ensures cmp(a, c) <= 0.0
    {
      assert Compare(a, b, mode) <= 0.0 && Compare(b, c, mode) <= 0.0;
    }
  }

  /** The listing order of `rooms` under `mode`. */
  function Rank(rooms: seq<Room>, mode: SortMode): (r: seq<Room>)
    ensures multiset(r) == multiset(rooms)
  {
    Sorting.StableSortPermutation(rooms, Comparator(mode));
    Sorting.StableSort(rooms, Comparator(mode))
  }

  predicate IsAvailable(r: Room) {
    r.isAvailable
  }

  predicate IsUnavailable(r: Room) {
    !r.isAvailable
  }

  /**
   * In a ranked listing every available room precedes every unavailable
   * one, and within the same availability the mode's key never decreases.
   */
  lemma RankOrder(rooms: seq<Room>, mode: SortMode)
    ensures var r := Rank(rooms, mode);
      forall i, j :: 0 <= i < j < |r| ==>
        && (r[j].isAvailable ==> r[i].isAvailable)
        && (r[i].isAvailable == r[j].isAvailable && mode == ByPrice ==> r[i].price <= r[j].price)
        && (r[i].isAvailable == r[j].isAvailable && mode == ByDistance ==>
              EffectiveDistance(r[i].distance) <= EffectiveDistance(r[j].distance))
  {
    ComparatorConsistent(mode);
    Sorting.StableSortSorted(rooms, Comparator(mode));
    var r := Rank(rooms, mode);
    forall i, j | 0 <= i < j < |r|
      ensures Compare(r[i], r[j], mode) <= 0.0
    {
      assert Comparator(mode)(r[i], r[j]) <= 0.0;
    }
  }

  /**
   * Stability: rooms that tie with `y` under `mode` appear in the ranked
   * listing in the order they had in `rooms`.
   */
  lemma RankStable(rooms: seq<Room>, y: Room, mode: SortMode)
    ensures Sorting.TiedWith(Rank(rooms, mode), y, Comparator(mode))
         == Sorting.TiedWith(rooms, y, Comparator(mode))
  {
    ComparatorConsistent(mode);
    Sorting.StableSortStable(rooms, y, Comparator(mode));
  }

  /**
   * What a tie means: same availability, and in price mode the same price,
   * in distance mode the same effective distance (price is not consulted).
   */
  lemma TieMeaning(x: Room, y: Room, mode: SortMode)
    ensures Sorting.TieTest(y, Comparator(mode))(x) <==>
      && x.isAvailable == y.isAvailable
      && (mode == ByPrice ==> x.price == y.price)
      && (mode == ByDistance ==> EffectiveDistance(x.distance) == EffectiveDistance(y.distance))
  {
  }

  /** An available room inserted among available-then-unavailable rooms lands between the two groups. */
  lemma {:induction false} InsertAvailable(x: Room, a: seq<Room>, u: seq<Room>)
    requires x.isAvailable
    requires forall e :: e in a ==> e.isAvailable
    requires forall e :: e in u ==> !e.isAvailable
    ensures Sorting.Insert(x, a + u, Comparator(ByAvailability)) == a + [x] + u
    decreases |u|
  {
    var cmp := Comparator(ByAvailability);
    if u == [] {
      assert a + u == a;
      if a != [] {
        assert a[|a| - 1] in a;
        assert cmp(x, a[|a| - 1]) == 0.0;
      }
    } else {
      var s := a + u;
      var uInit, uLast := u[..|u| - 1], u[|u| - 1];
      assert s[|s| - 1] == uLast;
      assert uLast in u;
      assert s[..|s| - 1] == a + uInit;
      assert cmp(x, uLast) < 0.0;
      calc {
        Sorting.Insert(x, s, cmp);
        Sorting.Insert(x, a + uInit, cmp) + [uLast];
        { InsertAvailable(x, a, uInit); }
        a + [x] + uInit + [uLast];
        { assert u == uInit + [uLast]; }
        a + [x] + u;
      }
    }
  }

  /** An unavailable room is inserted at the end when only availability counts. */
  lemma InsertUnavailable(x: Room, t: seq<Room>)
    requires !x.isAvailable
    ensures Sorting.Insert(x, t, Comparator(ByAvailability)) == t + [x]
  {
    if t != [] {
      assert Comparator(ByAvailability)(x, t[|t| - 1]) >= 0.0;
    }
  }

  /** Appending a room extends exactly one of the two groups. */
  lemma GroupsAfterAppend(init: seq<Room>, last: Room)
    ensures last.isAvailable ==>
      Seqs.Filter(init + [last], IsAvailable) == Seqs.Filter(init, IsAvailable) + [last] &&
      Seqs.Filter(init + [last], IsUnavailable) == Seqs.Filter(init, IsUnavailable)
    ensures !last.isAvailable ==>
      Seqs.Filter(init + [last], IsAvailable) == Seqs.Filter(init, IsAvailable) &&
      Seqs.Filter(init + [last], IsUnavailable) == Seqs.Filter(init, IsUnavailable) + [last]
  {
    Seqs.FilterAppend(init, [last], IsAvailable);
    Seqs.FilterAppend(init, [last], IsUnavailable);
    Seqs.FilterSingleton(last, IsAvailable);
    Seqs.FilterSingleton(last, IsUnavailable);
  }

  /** One step of the partition proof: inserting the next room keeps the two groups apart. */
  lemma PartitionStep(init: seq<Room>, last: Room)
    ensures Sorting.Insert(last, Seqs.Filter(init, IsAvailable) + Seqs.Filter(init, IsUnavailable), Comparator(ByAvailability))
         == Seqs.Filter(init + [last], IsAvailable) + Seqs.Filter(init + [last], IsUnavailable)
  {
    var a, u := Seqs.Filter(init, IsAvailable), Seqs.Filter(init, IsUnavailable);
    GroupsAfterAppend(init, last);
    if last.isAvailable {
      InsertAvailable(last, a, u);
    } else {
      InsertUnavailable(last, a + u);
    }
  }

  /**
   * Ranking by availability alone yields the available rooms in their
   * original order followed by the unavailable ones in their original order.
   */
  lemma {:induction false} AvailabilityOnlyPartition(s: seq<Room>)
    ensures Sorting.StableSort(s, Comparator(ByAvailability))
         == Seqs.Filter(s, IsAvailable) + Seqs.Filter(s, IsUnavailable)
  {
    if s != [] {
      var init, last := s[..|s| - 1], s[|s| - 1];
      assert s == init + [last];
      AvailabilityOnlyPartition(init);
      PartitionStep(init, last);
    }
  }
}
