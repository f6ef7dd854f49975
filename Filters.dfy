/**
 * The filter panel: each control builds a fresh filter state from the
 * current one, and only the states its controls can produce are reachable.
 */
module Filters {
  import opened Types
  import Seqs
  import Strings
  import RoomContext

  /** Ticks or unticks a sharing type: only `roomTypes` changes. */
  function ToggleRoomType(f: FilterState, t: string): (r: FilterState)
    ensures r.(roomTypes := f.roomTypes) == f
    ensures t in r.roomTypes <==> t !in f.roomTypes
    ensures forall u :: u != t ==> multiset(r.roomTypes)[u] == multiset(f.roomTypes)[u]
    ensures t !in f.roomTypes ==> r.roomTypes == f.roomTypes + [t]
    ensures t in f.roomTypes ==> Seqs.IsSubsequence(r.roomTypes, f.roomTypes)
  {
    f.(roomTypes := Seqs.Toggle(f.roomTypes, t))
  }

  /** Selects or deselects a gender: only `gender` changes. */
  function ToggleGender(f: FilterState, g: string): (r: FilterState)
    ensures r.(gender := f.gender) == f
    ensures g in r.gender <==> g !in f.gender
    ensures forall u :: u != g ==> multiset(r.gender)[u] == multiset(f.gender)[u]
    ensures g !in f.gender ==> r.gender == f.gender + [g]
    ensures g in f.gender ==> Seqs.IsSubsequence(r.gender, f.gender)
  {
    f.(gender := Seqs.Toggle(f.gender, g))
  }

  /** The near-me switch: negates `nearMe`, nothing else changes. */
  function ToggleNearMe(f: FilterState): (r: FilterState)
    ensures r.nearMe != f.nearMe
    ensures r.(nearMe := f.nearMe) == f
  {
    f.(nearMe := !f.nearMe)
  }

  /** The price slider: the band becomes `[5000, v]`, nothing else changes. */
  function SetMaxPrice(f: FilterState, v: int): (r: FilterState)
    ensures r.priceRange.0 == 5000 && r.priceRange.1 == v
    ensures r.(priceRange := f.priceRange) == f
  {
    f.(priceRange := (5000, v))
  }

  /** Clear All: every field back to its default, whatever the state. */
  function ClearAll(f: FilterState): (r: FilterState)
    ensures r == RoomContext.InitialFilters
  {
    FilterState((5000, 30000), [], [], "", false)
  }

  /** Ticking an unticked sharing type and unticking it again restores the state. */
  lemma ToggleRoomTypeTwice(f: FilterState, t: string)
    requires t !in f.roomTypes
    ensures ToggleRoomType(ToggleRoomType(f, t), t) == f
  {
    Seqs.ToggleTwiceAbsent(f.roomTypes, t);
  }

  /** Selecting an unselected gender and deselecting it again restores the state. */
  lemma ToggleGenderTwice(f: FilterState, g: string)
    requires g !in f.gender
    ensures ToggleGender(ToggleGender(f, g), g) == f
  {
    Seqs.ToggleTwiceAbsent(f.gender, g);
  }

  /** Two presses of the near-me switch change nothing. */
  lemma ToggleNearMeTwice(f: FilterState)
    ensures ToggleNearMe(ToggleNearMe(f)) == f
  {
  }

  /** Clear All is idempotent. */
  lemma ClearAllIdempotent(f: FilterState)
    ensures ClearAll(ClearAll(f)) == ClearAll(f)
  {
  }

  /** The panel's controls. */
  datatype Control =
    | SharingBox(t: Occupancy)
    | GenderButton(g: Gender)
    | NearMeSwitch
    | PriceSlider(v: int)
    | ClearAllButton

  /**
   * The controls the panel renders: boxes for the three sharing types,
   * buttons for Male and Female only, and a slider from 5000 to 30000 in
   * steps of 1000.
   */
  predicate Offered(c: Control) {
    match c
    case GenderButton(g) => g != Unisex
    case PriceSlider(v) => 5000 <= v <= 30000 && v % 1000 == 0
    case _ => true
  }

  /** The state after using control `c`. */
  function Apply(f: FilterState, c: Control): FilterState {
    match c
    case SharingBox(t) => ToggleRoomType(f, OccupancyName(t))
    case GenderButton(g) => ToggleGender(f, GenderName(g))
    case NearMeSwitch => ToggleNearMe(f)
    case PriceSlider(v) => SetMaxPrice(f, v)
    case ClearAllButton => ClearAll(f)
  }

  /** The states after using the controls of `cs` in turn. */
  function Run(f: FilterState, cs: seq<Control>): FilterState
    decreases |cs|
  {
    if cs == [] then f else Run(Apply(f, cs[0]), cs[1..])
  }

  /** A selected sharing type is one the panel offers. */
  predicate SharingLabel(t: string) {
    t == "Single" || t == "Double" || t == "Triple"
  }

  /** A selected gender is one the panel offers. */
  predicate GenderLabel(g: string) {
    g == "Male" || g == "Female"
  }

  /**
   * What holds of every state the panel can reach: the band starts at
   * 5000 and ends on a slider step, selections are offered labels with no
   * repeats, and the search text is empty, since no control sets it.
   */
  ghost predicate Reachable(f: FilterState) {
    && f.priceRange.0 == 5000
    && 5000 <= f.priceRange.1 <= 30000 && f.priceRange.1 % 1000 == 0
    && (forall t :: t in f.roomTypes ==> SharingLabel(t))
    && (forall g :: g in f.gender ==> GenderLabel(g))
    && Seqs.Distinct(f.roomTypes)
    && Seqs.Distinct(f.gender)
    && f.searchQuery == ""
  }

  /** The catalogue's starting filters are a reachable state. */
  lemma InitialReachable()
    ensures Reachable(RoomContext.InitialFilters)
  {
  }

  /** A toggled list holds only what it held before and the toggled value. */
  lemma ToggleOnlyAdds(s: seq<string>, x: string, allowed: string -> bool)
    requires forall y :: y in s ==> allowed(y)
    requires allowed(x)
    ensures forall y :: y in Seqs.Toggle(s, x) ==> allowed(y)
  {
    var r := Seqs.Toggle(s, x);
    forall y | y in r
      ensures allowed(y)
    {
      if y != x {
        assert multiset(r)[y] == multiset(s)[y];
        assert y in multiset(s);
      }
    }
  }

  /** Every offered control keeps the state reachable. */
  lemma ApplyPreserves(f: FilterState, c: Control)
    requires Reachable(f) && Offered(c)
    ensures Reachable(Apply(f, c))
  {
    match c
    case SharingBox(t) =>
      ToggleOnlyAdds(f.roomTypes, OccupancyName(t), SharingLabel);
    case GenderButton(g) =>
      ToggleOnlyAdds(f.gender, GenderName(g), GenderLabel);
    case _ =>
  }

  /** Any sequence of offered controls keeps the state reachable. */
  lemma {:induction false} RunPreserves(f: FilterState, cs: seq<Control>)
    requires Reachable(f)
    requires forall i :: 0 <= i < |cs| ==> Offered(cs[i])
    ensures Reachable(Run(f, cs))
    decreases |cs|
  {
    if cs != [] {
      ApplyPreserves(f, cs[0]);
      RunPreserves(Apply(f, cs[0]), cs[1..]);
    }
  }

  /**
   * In a reachable state the search admits every room, and the gender
   * test admits a room exactly when nothing is selected, the room is
   * unisex, or it suits the first selected gender.
   */
  lemma ReachableFilters(f: FilterState, room: Room)
    requires Reachable(f)
    ensures RoomContext.MatchesSearch(room, f)
    ensures RoomContext.MatchesGender(room, f) <==>
      |f.gender| == 0 || room.genderPreference == Unisex || GenderName(room.genderPreference) == f.gender[0]
  {
    assert Strings.Lower("") == "";
    if |f.gender| > 0 {
      assert f.gender[0] in f.gender;
    }
  }

  /** After Clear All every room priced up to 30000 is listed, the cheapest included. */
  lemma ClearAllListsUpTo30000(f: FilterState, room: Room)
    ensures RoomContext.Matches(room, ClearAll(f)) <==> room.price <= 30000
  {
    RoomContext.InitialFiltersAdmit(room);
  }
}
