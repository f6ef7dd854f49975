# Room catalogue front end — a verified model

This project models the logic of a paying-guest room-finder web front end:
- the catalogue's filter-and-rank engine, which produces the listing and the featured strip;
- the saved-rooms toggle;
- the filter panel's state transitions;
- the router's base-path detection;
- the bookmarks page's selection;
- the room page's amenity icons and photo gallery.

Modules, one per concern of the application:

- `Wrappers` — `Option`, standing in for `undefined`.
- `Seqs` — the list idioms written inline in the components:
  - `filter`, as `Filter`;
  - the "remove every occurrence if present, otherwise append" toggle, as `Toggle`;
  - subsequences.
- `Strings` — `toLowerCase`, `indexOf` and `includes`.
- `Types` — the `Room` and `FilterState` records of `types.ts`.
- `Sorting` — `Array.prototype.sort` with a comparator, as a stable sort:
  - a specification function `StableSort`;
  - an in-place array method `SortInPlace`, proved equal to it.
- `Ranking` — the availability-first comparators of the catalogue and the ranking they induce.
- `RoomContext` — the catalogue state:
  - the default filters and the four filter tests;
  - distance attachment and ranking by distance in near-me mode, which below always means that the near-me switch is on AND the user's position is known (`NearMeActive`); with the switch on and no position, the listing is ranked by price;
  - the `FilteredRooms` method, which reassigns its working list and sorts a copy in place;
  - the featured strip.
- `Filters` — the filter panel's controls as `FilterState` transitions, and the invariant of every state the panel can reach.
- `Router` — the base-path computation as a method that reassigns `path` in stages and loops over the known routes, proved equal to a staged specification.
- `Saved` — the bookmarked rooms.
- `RoomDetails` — the amenity-icon classifier, the gallery tiles and the "+N photos" badge.

## Model

| member | source | states |
|---|---|---|
| Seqs.Filter | context/RoomContext.tsx:93-108 | `filter` keeps exactly the elements passing the test, each as often as in the input, and never grows the list |
| Seqs.FilterIsSubsequence | pages/Saved.tsx:12 | what a filter keeps is a subsequence of its input, in input order |
| Seqs.Without | context/RoomContext.tsx:86 | `prev.filter(rid => rid !== id)` removes every occurrence of the id, keeps the count of every other id, and keeps the remaining ids in their order |
| Seqs.Toggle | context/RoomContext.tsx:85-87 | toggleSave: the id is saved afterwards exactly when it was not before; other ids keep their counts; a present id is removed with the rest kept in order; an absent id is appended at the end of the unchanged list; a list without repeats stays without repeats |
| Seqs.ToggleTwiceAbsent | context/RoomContext.tsx:86 | toggling an unsaved id twice restores the original list |
| Seqs.ToggleTwicePresent | context/RoomContext.tsx:86 | toggling a saved id twice removes all its occurrences and appends one copy at the end |
| Strings.Lower | context/RoomContext.tsx:102-105 | lower-casing keeps the length, maps each character and leaves no upper-case letter |
| Strings.IndexOf | router.tsx:37 | `indexOf` finds the first occurrence, and reports none exactly when the pattern occurs nowhere |
| Strings.Contains | context/RoomContext.tsx:104-105 | `includes`: the pattern occurs somewhere in the text, exactly when `indexOf` finds a first occurrence; also the keyword tests of components/RoomDetails.tsx:117-121 |
| Strings.ContainsWithin | context/RoomContext.tsx:103-105 | `includes` is transitive through a containing pattern |
| Strings.FirstHit | router.tsx:33-42 | the first-hit search returns the first pattern in list order that occurs anywhere in the text, and none exactly when no pattern occurs; the route loop and the amenity-icon chain are both this search |
| Sorting.StableSort | context/RoomContext.tsx:117 | `Array.prototype.sort` with a comparator, as the specification of a stable sort: insertion of each element in turn; it keeps the length, and its lemmas below give the permutation, the order and the stability |
| Sorting.StableSortPermutation | context/RoomContext.tsx:117-128 | sorting permutes the list: the same rooms, each as often |
| Sorting.StableSortSorted | context/RoomContext.tsx:117-128 | for a consistent comparator, each room compares no higher than every room after it |
| Sorting.StableSortStable | context/RoomContext.tsx:117-128 | rooms the comparator ties keep their relative order |
| Sorting.InsertAt | context/RoomContext.tsx:117 | one in-place insertion pass leaves the prefix equal to the specification's insertion and the rest of the array untouched |
| Sorting.SortInPlace | context/RoomContext.tsx:117 | sorting the array in place leaves exactly the stable sort of its old contents |
| Ranking.ComparatorConsistent | context/RoomContext.tsx:117-128 | the comparator is antisymmetric and transitive in every mode, so the sort is well defined |
| Ranking.EffectiveDistance | context/RoomContext.tsx:123 | the falsy default of the distance: a missing distance or a distance of exactly 0 becomes the 9999 sentinel; any other distance is kept |
| Ranking.Compare | context/RoomContext.tsx:117-128 | an available room goes before an unavailable one; when availability agrees, the sign follows the price difference (price mode) or the effective-distance difference (near-me mode), and the featured strip's comparator ties |
| Ranking.Rank | context/RoomContext.tsx:117-128 | ranking keeps the multiset of rooms |
| Ranking.RankOrder | context/RoomContext.tsx:119-127 | every available room precedes every unavailable one; within an availability group, price or effective distance never decreases |
| Ranking.RankStable | context/RoomContext.tsx:117-128 | rooms tied with any room keep their input order |
| Ranking.TieMeaning | context/RoomContext.tsx:119-127 | two rooms tie when availability agrees and so does price (price mode) or effective distance (near-me mode, price not consulted) |
| Ranking.AvailabilityOnlyPartition | context/RoomContext.tsx:137 | the availability-only comparator yields the available rooms in input order, then the unavailable ones in input order |
| RoomContext.NearMeActive | context/RoomContext.tsx:110 | near-me mode: the near-me switch is on AND the user's position is known; with the switch on but no position the listing gets no distances and is sorted by price |
| RoomContext.Mode | context/RoomContext.tsx:122-127 | the comparator's secondary key for the listing is effective distance exactly in near-me mode (switch on and position known), and price otherwise; the listing never uses the featured strip's availability-only comparator |
| RoomContext.ToArray | context/RoomContext.tsx:92 | `[...rooms]`: a fresh array holding the listing, so sorting it in place leaves the catalogue untouched |
| RoomContext.WithDistances | context/RoomContext.tsx:110-115 | each room gets exactly one copy carrying its distance, in the same position |
| RoomContext.AttachDistance | context/RoomContext.tsx:113 | the copy differs from the room only in its distance, which is the great-circle distance from the user when the room has coordinates and the 9999 sentinel otherwise |
| RoomContext.Candidates | context/RoomContext.tsx:92-115 | one candidate per matching room, every candidate passes all four tests; in near-me mode every candidate carries a distance, otherwise every candidate is a catalogue room |
| RoomContext.CatalogView | context/RoomContext.tsx:92-128 | the listing is a reordering of the candidates, so every room listed passes all four tests |
| RoomContext.MatchesPrice | context/RoomContext.tsx:94 | a room passes the price test when its price is at most the upper end of the band; the lower end is not checked |
| RoomContext.MatchesType | context/RoomContext.tsx:95 | with no sharing type selected every room passes; otherwise its type must be among those selected |
| RoomContext.MatchesGender | context/RoomContext.tsx:97-100 | a room passes when no gender is selected, the first selection is empty, its preference equals the first selection, or it is unisex |
| RoomContext.MatchesSearch | context/RoomContext.tsx:102-105 | a room passes when the lower-cased query is empty or occurs in its lower-cased name or location |
| RoomContext.Matches | context/RoomContext.tsx:107 | a room is listed when it passes the price, type, gender and search tests together |
| RoomContext.FilteredRooms | context/RoomContext.tsx:89-131 | the method's listing is the ranked candidates: filtered, distances attached in near-me mode, and sorted in place |
| RoomContext.KeptMembers | context/RoomContext.tsx:93-108 | a room survives the filter exactly when it is in the catalogue and passes all four tests |
| RoomContext.DistancedMembers | context/RoomContext.tsx:110-115 | the near-me copies are exactly the distance-carrying copies of the kept rooms |
| RoomContext.CatalogMembers | context/RoomContext.tsx:92-115 | the listing has one entry per matching room; outside near-me mode it holds exactly the matching rooms, unchanged; in near-me mode exactly their distance-carrying copies |
| RoomContext.CatalogOrder | context/RoomContext.tsx:117-128 | available rooms come first in every mode; within a group, ascending price, or in near-me mode ascending effective distance |
| RoomContext.CatalogTiesKeepOrder | context/RoomContext.tsx:117-128 | rooms tied under the active mode appear in the listing in catalogue order |
| RoomContext.UnlocatedSinkWithinGroup | context/RoomContext.tsx:110-124 | in near-me mode a room without coordinates counts as 9999 km away, so only rooms at least that far follow it in its group |
| RoomContext.InitialFiltersAdmit | context/RoomContext.tsx:47-53 | the default filters list every room priced up to 30000, including those below the 5000 lower bound |
| RoomContext.UnisexAlwaysPasses | context/RoomContext.tsx:97-100 | a unisex room passes the gender test whatever is selected |
| RoomContext.GenderReadsFirstOnly | context/RoomContext.tsx:97 | only the first selected gender affects the gender test |
| RoomContext.BothGendersSelected | context/RoomContext.tsx:97-100 | with Male then Female selected, exactly the female-only rooms are dropped |
| RoomContext.SearchIgnoresQueryCase | context/RoomContext.tsx:102-105 | the search result does not depend on the query's letter case |
| RoomContext.SearchWidens | context/RoomContext.tsx:102-105 | a room found by a query is found by every query contained in it |
| RoomContext.SearchReadsNameAndLocation | context/RoomContext.tsx:102-105 | description and flat type play no part in whether a room is listed |
| RoomContext.FeaturedAvailableFirst | context/RoomContext.tsx:133-138 | the featured strip is the available featured rooms in catalogue order followed by the unavailable featured rooms in catalogue order |
| RoomContext.FeaturedRooms | context/RoomContext.tsx:133-138 | the featured strip holds exactly the featured catalogue rooms, one entry per featured room |
| Filters.ToggleRoomType | components/Filters.tsx:11-16 | the type is selected afterwards exactly when it was not; other types keep their counts; an unticked type is appended at the end, a ticked one removed with the rest kept in order; no other field changes |
| Filters.ToggleGender | components/Filters.tsx:18-23 | the gender is selected afterwards exactly when it was not; other genders keep their counts; an unselected gender is appended at the end, a selected one removed with the rest kept in order, which fixes what `gender[0]` reads next; no other field changes |
| Filters.ToggleNearMe | components/Filters.tsx:44 | near-me is negated and nothing else changes |
| Filters.SetMaxPrice | components/Filters.tsx:58-64 | the price band becomes `[5000, v]` and nothing else changes |
| Filters.ClearAll | components/Filters.tsx:30 | from any state, the result equals the catalogue's initial filters |
| Filters.ToggleRoomTypeTwice | components/Filters.tsx:12-14 | ticking an unticked type twice restores the state |
| Filters.ToggleGenderTwice | components/Filters.tsx:19-21 | selecting an unselected gender twice restores the state |
| Filters.ToggleNearMeTwice | components/Filters.tsx:44 | two presses of the near-me switch change nothing |
| Filters.ClearAllIdempotent | components/Filters.tsx:30 | Clear All twice is Clear All once |
| Filters.Offered | components/Filters.tsx:30-100 | the panel offers the three sharing boxes, the Male and Female buttons, the near-me switch, Clear All and slider values from 5000 to 30000 in steps of 1000 |
| Filters.Apply | components/Filters.tsx:30-100 | each control maps to its own transition: sharing box to the type toggle, gender button to the gender toggle, the switch to the near-me toggle, the slider to the new band, Clear All to the initial filters |
| Filters.Run | components/Filters.tsx:30-100 | the state after using a sequence of controls in turn |
| Filters.Reachable | components/Filters.tsx:30-100 | the panel invariant: the band starts at 5000 and ends on a 1000-step from 5000 to 30000, selections are offered labels without repeats, and the search text is empty |
| Filters.InitialReachable | context/RoomContext.tsx:47-53 | the initial filters satisfy the panel invariant |
| Filters.ApplyPreserves | components/Filters.tsx:30-100 | every rendered control keeps the invariant: the band starts at 5000 and ends on a 1000-step within 5000 to 30000; only Single/Double/Triple and Male/Female are ever selected, without repeats; the search text stays empty |
| Filters.RunPreserves | components/Filters.tsx:30-100 | any sequence of rendered controls keeps the invariant |
| Filters.ReachableFilters | context/RoomContext.tsx:97-105 | in every reachable state the search admits every room, and the gender test is "nothing selected, unisex, or the first selection" |
| Filters.ClearAllListsUpTo30000 | components/Filters.tsx:30 | after Clear All exactly the rooms priced up to 30000 are listed |
| Router.AfterProtocol | router.tsx:24-25 | `split('://')[1]`: the text that starts right after the first separator and runs to the next separator or to the end of the path, and holds no separator |
| Router.StripProtocol | router.tsx:23-28 | with a scheme separator, the result is `/` when the text after it has no slash, and otherwise is that text from its first slash on; any other path is unchanged; the result starts with `/` and holds no separator |
| Router.CollapseSlashes | router.tsx:31 | the result has no double slash, is empty only for the empty path, and starts with the path's first character |
| Router.CollapseRun | router.tsx:31 | `replace(/\/+/g, '/')` treats a run of two slashes exactly as one, wherever it occurs |
| Router.CollapseKeepsText | router.tsx:31 | collapsing keeps every non-slash character, in order |
| Router.CollapseIdempotent | router.tsx:31 | a path without double slashes is unchanged, so collapsing twice is collapsing once |
| Router.TrimTrailingSlashes | router.tsx:45 | the result is the longest prefix not ending in `/`; only slashes are removed |
| Router.Normalise | router.tsx:20-31 | the path after the scheme clean-up and the slash collapse |
| Router.CutAtRoute | router.tsx:33-42 | the path before the first occurrence of the first known route in list order that occurs, or the whole path when none does |
| Router.Basename | router.tsx:18-46 | the base path: the normalised path cut at the first known route, with trailing slashes removed, or `/` when nothing remains |
| Router.GetBasename | router.tsx:18-46 | the staged computation with its early-exit route loop equals the specification `Basename` |
| Router.BasenameShape | router.tsx:35-46 | the base is never empty and ends in `/` only when it is `/`; it has no double slash; it is `/` or a prefix of the normalised path, and starts with `/` when that path does |
| Router.NoRouteKeepsPath | router.tsx:35 | with no known route present, the whole normalised path, trimmed, is the base |
| Router.ListingsTakesPriority | router.tsx:33-42 | whenever `/listings` occurs, the cut is at its first occurrence, whatever other routes occur earlier in the path |
| Saved.SavedRooms | pages/Saved.tsx:12 | a room is shown exactly when it is in the catalogue and its id is saved, as often as in the catalogue, in catalogue order; nothing saved shows nothing |
| Saved.SavedCount | pages/Saved.tsx:18 | the heading count is the number of rooms the page lists; it is at most the catalogue size and is zero exactly when no catalogue room is saved |
| Saved.OnlyIdSetMatters | pages/Saved.tsx:12 | only which ids are saved matters, not their order or repetition |
| Saved.DuplicateIdsIgnored | pages/Saved.tsx:12 | a repeated saved id does not repeat its room |
| Saved.UnknownIdIgnored | pages/Saved.tsx:12 | a saved id absent from the catalogue contributes nothing |
| Saved.SavedKeepsCatalogOrder | pages/Saved.tsx:12 | the saved rooms of a split catalogue are those of each part, in turn |
| RoomDetails.AmenityIcon | components/RoomDetails.tsx:117-121 | the icon belongs to the first of "wi-fi", "ac", "meal", "laundry", "backup" that occurs in the lower-cased amenity (`wifi`, `ac_unit`, `restaurant`, `local_laundry_service`, `bolt`), and is the generic `task_alt` exactly when none occurs |
| RoomDetails.BoltNeverShown | components/RoomDetails.tsx:117-121 | the `bolt` icon is never shown, because "backup" contains "ac", which is tried first |
| RoomDetails.BackupShowsAirConditioning | components/RoomDetails.tsx:117-121 | a power-backup amenity without "wi-fi" gets the air-conditioning icon |
| RoomDetails.AmenityIconIntended | components/RoomDetails.tsx:117-121 | the same first-hit choice over the order "wi-fi", "backup", "ac", "meal", "laundry", so power-backup amenities without "wi-fi" get `bolt` |
| RoomDetails.IntendedIconFixesBackup | components/RoomDetails.tsx:117-121 | the corrected choice differs from the source's exactly on power-backup amenities without "wi-fi", which get `bolt` instead of `ac_unit` |
| RoomDetails.MainPhoto | components/RoomDetails.tsx:64 | the main tile shows the first photo, and nothing when there are no photos |
| RoomDetails.GalleryTile | components/RoomDetails.tsx:67-76 | tile i shows `photos[i]` when present and non-empty, otherwise the main photo |
| RoomDetails.TilesShowOwnPhotos | components/RoomDetails.tsx:64-76 | every tile shows one of the room's photos, is empty only when there are none, and is never blank when the main photo is not |
| RoomDetails.OverflowCount | components/RoomDetails.tsx:78 | the badge number is never negative, at most the number of photos, and zero exactly when there are at most four photos |
| RoomDetails.PhotosAccountedFor | components/RoomDetails.tsx:64-78 | the four uncovered tiles and the badge count every photo exactly once |

## Left out

- The haversine body of `calculateDistance` (context/RoomContext.tsx:25-34) is trigonometry in floating point. It is the parameter `dist` of the catalogue functions. No proof depends on its values, so it is also not required to be non-negative.
- Floating point throughout:
  - prices are integers and distances are reals;
  - `NaN`, infinities and rounding are not modelled;
  - the comparator returns a real whose sign alone matters, as in JavaScript.
- `isAvailable` is a boolean, with an absent flag read as `false`. The source compares flags with `!==`, so an absent flag and `false` differ there. The model does not capture that a catalogue mixing the two would give the sort an inconsistent comparator.
- `Sorting.SortInPlace` is an insertion sort. The source calls the engine's `Array.prototype.sort`, which the language requires to be stable. The model relies on, but does not prove, the fact that every stable sort yields the same order for a consistent comparator.
- `RoomContext.FeaturedRooms` is a function over lists. The source sorts a freshly filtered array in place, which nothing else can observe.
- The `Array.isArray` guards (context/RoomContext.tsx:90, 134) are not modelled: in the model the catalogue is always a list.
- React state, effects and I/O are left out:
  - the localStorage read and write of saved ids;
  - `fetchRooms`, geolocation and the loading flag.

  The user's position is the optional parameter `user` / `userLocation`.
- Strings.Lower: ASCII letters only. JavaScript's `toLowerCase` also folds non-ASCII letters.
- The router's `try`/`catch` fallback to `/` (router.tsx:47-50), `window.location` and router construction are left out. `GetBasename` takes the pathname as a parameter, and no stage of it can fail in the model.
- Price labels, `toLocaleString`, `toFixed`, `Math.round` and URL encoding are presentation only.
- No control in the components modelled here sets `searchQuery`; it is only cleared. The search predicate is modelled in full. `Filters.Reachable` records that reachable states have an empty query.
- Gender filtering follows the code:
  - only the first selected gender is read, and an empty first entry counts as no selection;
  - a rule matching any selected gender would keep female-only rooms after Male then Female are selected; `RoomContext.BothGendersSelected` shows that the code drops them.
- The near-me sentinel of 9999 km is below the largest great-circle distance on Earth (about 20015 km). A located room farther than 9999 km would therefore sort after rooms without coordinates. `RoomContext.UnlocatedSinkWithinGroup` states the order only relative to the sentinel.
- Filters.SetMaxPrice: accepts any integer. The slider's bounds and 1000-step are stated by `Filters.Offered` and carried by the invariant, not by the function.

## Findings

| source | as written | input that shows it | evidently intended | confidence | as-written member | corrected member |
|---|---|---|---|---|---|---|
| components/RoomDetails.tsx:117-121 | "ac" is tried before "backup", and "backup" contains "ac", so the `bolt` branch can never be taken | the amenity "24/7 Power Backup" gets `ac_unit` | power-backup amenities get the `bolt` icon | high; not executed | RoomDetails.BoltNeverShown | RoomDetails.IntendedIconFixesBackup |
