/**
 * The catalogue state shared by every page: the default filters, the
 * filtered and ranked listing, and the featured strip.
 */
module RoomContext {
  import opened Wrappers
  import opened Types
  import opened Strings
  import Seqs
  import Sorting
  import opened Ranking

  /** The filters the catalogue starts with: the full price band, nothing selected. */
  const InitialFilters: FilterState := FilterState((5000, 30000), [], [], "", false)

  /** Only the upper end of the price band is enforced. */
  predicate MatchesPrice(room: Room, f: FilterState) {
    room.price <= f.priceRange.1
  }

  /** No type selected admits every room; otherwise the room's type must be selected. */
  predicate MatchesType(room: Room, f: FilterState) {
    |f.roomTypes| == 0 || OccupancyName(room.occupancyType) in f.roomTypes
  }

  /**
   * Only the first selected gender is read. No selection, or an empty
   * first entry (falsy in JavaScript), admits every room; a unisex room
   * passes whatever is selected.
   */
  predicate MatchesGender(room: Room, f: FilterState) {
    || |f.gender| == 0
    || f.gender[0] == ""
    || GenderName(room.genderPreference) == f.gender[0]
    || room.genderPreference == Unisex
  }

  /** The lower-cased query must occur in the lower-cased name or location. */
  predicate MatchesSearch(room: Room, f: FilterState) {
    var q := Lower(f.searchQuery);
    q == "" || Contains(Lower(room.name), q) || Contains(Lower(room.location), q)
  }

  /** A room is listed when it passes all four tests. */
  predicate Matches(room: Room, f: FilterState) {
    MatchesPrice(room, f) && MatchesType(room, f) && MatchesGender(room, f) && MatchesSearch(room, f)
  }

  /** The callback handed to `filter`. */
  function MatchTest(f: FilterState): Room -> bool {
    room => Matches(room, f)
  }

  /** Distance ranking is on when near-me is requested and the user's position is known. */
  predicate NearMeActive(f: FilterState, user: Option<Coordinates>) {
    f.nearMe && user.Some?
  }

  /** The comparator's secondary key for these filters. */
  function Mode(f: FilterState, user: Option<Coordinates>): (m: SortMode)
    ensures m == ByDistance <==> NearMeActive(f, user)
    ensures m != ByAvailability
  {
    if NearMeActive(f, user) then ByDistance else ByPrice
  }

  /**
   * The copy of `room` carrying its distance from `user`: the great-circle
   * distance when the room has coordinates, the sentinel otherwise.
   */
  function AttachDistance(room: Room, user: Coordinates, dist: (Coordinates, Coordinates) -> real): (r: Room)
    ensures r.(distance := room.distance) == room
    ensures room.coordinates.Some? ==> r.distance == Some(dist(user, room.coordinates.value))
    ensures room.coordinates.None? ==> EffectiveDistance(r.distance) == Sentinel
  {
    room.(distance := Some(if room.coordinates.Some? then dist(user, room.coordinates.value) else Sentinel))
  }

  /** `map` of `AttachDistance` over the listing. */
  function WithDistances(rooms: seq<Room>, user: Coordinates, dist: (Coordinates, Coordinates) -> real): (r: seq<Room>)
    ensures |r| == |rooms|
    ensures forall i :: 0 <= i < |rooms| ==> r[i] == AttachDistance(rooms[i], user, dist)
  {
    seq(|rooms|, i requires 0 <= i < |rooms| => AttachDistance(rooms[i], user, dist))
  }

  /** The matching rooms in catalogue order, with distances attached in near-me mode. */
  function Candidates(rooms: seq<Room>, f: FilterState, user: Option<Coordinates>,
                      dist: (Coordinates, Coordinates) -> real): (r: seq<Room>)
    ensures |r| == |Seqs.Filter(rooms, MatchTest(f))|
    ensures forall v :: v in r ==> Matches(v, f)
    ensures NearMeActive(f, user) ==> forall v :: v in r ==> v.distance.Some?
    ensures !NearMeActive(f, user) ==> forall v :: v in r ==> v in rooms
  {
    var kept := Seqs.Filter(rooms, MatchTest(f));
    KeptMembers(rooms, f);
    if NearMeActive(f, user) then
      DistancedMembers(kept, user.value, dist);
      WithDistances(kept, user.value, dist)
    else kept
  }

  /** The listing the catalogue shows: the candidates, ranked. */
  function CatalogView(rooms: seq<Room>, f: FilterState, user: Option<Coordinates>,
                       dist: (Coordinates, Coordinates) -> real): (r: seq<Room>)
    ensures multiset(r) == multiset(Candidates(rooms, f, user, dist))
    ensures forall v :: v in r ==> Matches(v, f)
  {
    RankMembers(Candidates(rooms, f, user, dist), Mode(f, user));
    Rank(Candidates(rooms, f, user, dist), Mode(f, user))
  }

  /** Copies a listing into a fresh array, as `[...rooms]` does. */
  method ToArray(s: seq<Room>) returns (a: array<Room>)
    ensures fresh(a) && a[..] == s
  {
    a := new Room[|s|](i requires 0 <= i < |s| => s[i]);
  }

  /**
   * The filtered listing: filter, attach distances in near-me mode, then
   * sort a copy in place with the availability-first comparator.
   */
  method FilteredRooms(rooms: seq<Room>, filters: FilterState, userLocation: Option<Coordinates>,
                       dist: (Coordinates, Coordinates) -> real)
    returns (view: seq<Room>)
    ensures view == CatalogView(rooms, filters, userLocation, dist)
  {
    var result := Seqs.Filter(rooms, MatchTest(filters));
    if filters.nearMe && userLocation.Some? {
      result := WithDistances(result, userLocation.value, dist);
    }
    var a := ToArray(result);
    Sorting.SortInPlace(a, Comparator(Mode(filters, userLocation)));
    view := a[..];
  }

  predicate IsFeatured(room: Room) {
    room.featured
  }

  /** The featured strip: featured rooms, available ones first. */
  function FeaturedRooms(rooms: seq<Room>): (r: seq<Room>)
    ensures |r| == |Seqs.Filter(rooms, IsFeatured)|
    ensures forall v :: v in r <==> v in rooms && v.featured
  {
    RankMembers(Seqs.Filter(rooms, IsFeatured), ByAvailability);
    Rank(Seqs.Filter(rooms, IsFeatured), ByAvailability)
  }

  /** The rooms `filter` keeps are the catalogue's matching rooms. */
  lemma KeptMembers(rooms: seq<Room>, f: FilterState)
    ensures forall room :: room in Seqs.Filter(rooms, MatchTest(f)) <==> room in rooms && Matches(room, f)
  {
    forall room
      ensures room in Seqs.Filter(rooms, MatchTest(f)) <==> room in rooms && Matches(room, f)
    {
      assert MatchTest(f)(room) == Matches(room, f);
    }
  }

  /** Attaching distances keeps one copy of each room, and nothing else. */
  lemma DistancedMembers(kept: seq<Room>, user: Coordinates, dist: (Coordinates, Coordinates) -> real)
    ensures forall v :: v in WithDistances(kept, user, dist) <==>
      exists room :: room in kept && v == AttachDistance(room, user, dist)
  {
    var cand := WithDistances(kept, user, dist);
    forall v
      ensures v in cand <==> exists room :: room in kept && v == AttachDistance(room, user, dist)
    {
      if v in cand {
        var i :| 0 <= i < |cand| && cand[i] == v;
        assert kept[i] in kept;
      }
      if room :| room in kept && v == AttachDistance(room, user, dist) {
        var i :| 0 <= i < |kept| && kept[i] == room;
        assert cand[i] == v;
      }
    }
  }

  /** A ranked listing holds the same rooms as its input. */
  lemma RankMembers(s: seq<Room>, mode: SortMode)
    ensures forall v :: v in Rank(s, mode) <==> v in s
  {
    var r := Rank(s, mode);
    forall v
      ensures v in r <==> v in s
    {
      assert v in r <==> v in multiset(r);
      assert v in s <==> v in multiset(s);
    }
  }

  /**
   * The listing holds exactly the matching rooms, once per occurrence in
   * the catalogue: unchanged outside near-me mode, each carrying its
   * distance from the user inside it.
   */
  lemma CatalogMembers(rooms: seq<Room>, f: FilterState, user: Option<Coordinates>,
                       dist: (Coordinates, Coordinates) -> real)
    ensures |CatalogView(rooms, f, user, dist)| == |Seqs.Filter(rooms, MatchTest(f))|
    ensures !NearMeActive(f, user) ==>
      multiset(CatalogView(rooms, f, user, dist)) == multiset(Seqs.Filter(rooms, MatchTest(f)))
    ensures !NearMeActive(f, user) ==>
      forall room :: room in CatalogView(rooms, f, user, dist) <==> room in rooms && Matches(room, f)
    ensures NearMeActive(f, user) ==>
      forall v :: v in CatalogView(rooms, f, user, dist) <==>
        exists room :: room in rooms && Matches(room, f) && v == AttachDistance(room, user.value, dist)
  {
    var kept := Seqs.Filter(rooms, MatchTest(f));
    RankMembers(Candidates(rooms, f, user, dist), Mode(f, user));
    KeptMembers(rooms, f);
    if NearMeActive(f, user) {
      DistancedMembers(kept, user.value, dist);
    }
  }

  /**
   * The listing's order: available rooms before unavailable ones in every
   * mode; within one availability group, cheaper first, or in near-me mode
   * nearer first by effective distance.
   */
  lemma CatalogOrder(rooms: seq<Room>, f: FilterState, user: Option<Coordinates>,
                     dist: (Coordinates, Coordinates) -> real)
    ensures var view := CatalogView(rooms, f, user, dist);
      forall i, j :: 0 <= i < j < |view| ==>
        && (view[j].isAvailable ==> view[i].isAvailable)
        && (!NearMeActive(f, user) && view[i].isAvailable == view[j].isAvailable ==>
              view[i].price <= view[j].price)
        && (NearMeActive(f, user) && view[i].isAvailable == view[j].isAvailable ==>
              EffectiveDistance(view[i].distance) <= EffectiveDistance(view[j].distance))
  {
    RankOrder(Candidates(rooms, f, user, dist), Mode(f, user));
  }

  /**
   * Ties keep catalogue order: the rooms that tie with any `y` (see
   * `Ranking.TieMeaning`) appear in the listing in the order they had
   * among the candidates.
   */
  lemma CatalogTiesKeepOrder(rooms: seq<Room>, f: FilterState, user: Option<Coordinates>,
                             dist: (Coordinates, Coordinates) -> real)
    ensures forall y :: Sorting.TiedWith(CatalogView(rooms, f, user, dist), y, Comparator(Mode(f, user)))
                     == Sorting.TiedWith(Candidates(rooms, f, user, dist), y, Comparator(Mode(f, user)))
  {
    forall y {
      RankStable(Candidates(rooms, f, user, dist), y, Mode(f, user));
    }
  }

  /**
   * In near-me mode a room without coordinates sorts as if 9999 km away:
   * every room after it in its availability group is at least that far
   * by effective distance.
   */
  lemma UnlocatedSinkWithinGroup(rooms: seq<Room>, f: FilterState, user: Option<Coordinates>,
                                 dist: (Coordinates, Coordinates) -> real)
    requires NearMeActive(f, user)
    ensures var view := CatalogView(rooms, f, user, dist);
      forall i, j ::
        (0 <= i < j < |view| && view[i].coordinates.None? && view[i].isAvailable == view[j].isAvailable) ==>
          EffectiveDistance(view[j].distance) >= Sentinel
  {
    var view := CatalogView(rooms, f, user, dist);
    CatalogMembers(rooms, f, user, dist);
    CatalogOrder(rooms, f, user, dist);
    forall i | 0 <= i < |view| && view[i].coordinates.None?
      ensures EffectiveDistance(view[i].distance) == Sentinel
    {
      assert view[i] in view;
      var room :| room in rooms && Matches(room, f) && view[i] == AttachDistance(room, user.value, dist);
    }
  }

  /** The default filters list every room priced up to 30000, including those below 5000. */
  lemma InitialFiltersAdmit(room: Room)
    ensures Matches(room, InitialFilters) <==> room.price <= 30000
  {
    assert Lower("") == "";
  }

  /** A unisex room passes the gender test whatever is selected. */
  lemma UnisexAlwaysPasses(room: Room, f: FilterState)
    requires room.genderPreference == Unisex
    ensures MatchesGender(room, f)
  {
  }

  /** Only the first selected gender matters. */
  lemma GenderReadsFirstOnly(room: Room, f: FilterState)
    requires |f.gender| > 0
    ensures MatchesGender(room, f) <==> MatchesGender(room, f.(gender := [f.gender[0]]))
  {
  }

  /** Selecting Male then Female filters as Male alone: female-only rooms are dropped. */
  lemma BothGendersSelected(room: Room, f: FilterState)
    requires f.gender == ["Male", "Female"]
    ensures MatchesGender(room, f) <==> room.genderPreference != Female
  {
    assert GenderName(Female) != "Male";
  }

  /** The search ignores letter case in the query. */
  lemma SearchIgnoresQueryCase(room: Room, f: FilterState)
    ensures MatchesSearch(room, f) <==> MatchesSearch(room, f.(searchQuery := Lower(f.searchQuery)))
  {
    LowerIdempotent(f.searchQuery);
  }

  /**
   * Shortening the query never drops a room: a room found by a query is
   * found by every query contained in it.
   */
  lemma SearchWidens(room: Room, f: FilterState, q: string)
    requires MatchesSearch(room, f)
    requires Contains(Lower(f.searchQuery), Lower(q))
    ensures MatchesSearch(room, f.(searchQuery := q))
  {
    var big, small := Lower(f.searchQuery), Lower(q);
    if small != "" {
      assert OccursAt(big, small, IndexOf(big, small).value);
      if Contains(Lower(room.name), big) {
        ContainsWithin(Lower(room.name), big, small);
      } else {
        ContainsWithin(Lower(room.location), big, small);
      }
    }
  }

  /** Only the name and the location are searched. */
  lemma SearchReadsNameAndLocation(room: Room, f: FilterState, description: string, flatType: string)
    ensures Matches(room.(description := description, flatType := flatType), f) <==> Matches(room, f)
  {
  }

  predicate IsFeaturedAvailable(room: Room) {
    room.featured && room.isAvailable
  }

  predicate IsFeaturedUnavailable(room: Room) {
    room.featured && !room.isAvailable
  }

  /**
   * The featured strip is the available featured rooms in catalogue order
   * followed by the unavailable featured rooms in catalogue order.
   */
  lemma FeaturedAvailableFirst(rooms: seq<Room>)
    ensures FeaturedRooms(rooms) == Seqs.Filter(rooms, IsFeaturedAvailable) + Seqs.Filter(rooms, IsFeaturedUnavailable)
  {
    var featured := Seqs.Filter(rooms, IsFeatured);
    AvailabilityOnlyPartition(featured);
    Seqs.FilterFilter(rooms, IsFeatured, IsAvailable, IsFeaturedAvailable);
    Seqs.FilterFilter(rooms, IsFeatured, IsUnavailable, IsFeaturedUnavailable);
  }
}
