/** The room page's gallery and amenity list. */
module RoomDetails {
  import opened Wrappers
  import opened Strings

  /** The keywords looked for in an amenity, in the order they are tried. */
  const Keywords: seq<string> := ["wi-fi", "ac", "meal", "laundry", "backup"]

  /** The icon each keyword selects, position by position. */
  const Icons: seq<string> := ["wifi", "ac_unit", "restaurant", "local_laundry_service", "bolt"]

  /** The icon shown when no keyword occurs. */
  const GenericIcon: string := "task_alt"

  /**
   * The icon for an amenity: the first keyword, in the order tried, that
   * occurs in the lower-cased text decides; the generic icon when none does.
   */
  function AmenityIcon(item: string): (icon: string)
    ensures icon == match FirstHit(Lower(item), Keywords)
      case Some(k) => Icons[k]
      case None => GenericIcon
    ensures icon == GenericIcon <==> forall k :: 0 <= k < |Keywords| ==> !Contains(Lower(item), Keywords[k])
  {
    var t := Lower(item);
    if Contains(t, "wi-fi") then "wifi"
    else if Contains(t, "ac") then "ac_unit"
    else if Contains(t, "meal") then "restaurant"
    else if Contains(t, "laundry") then "local_laundry_service"
    else if Contains(t, "backup") then "bolt"
    else "task_alt"
  }

  /** "backup" contains "ac". */
  lemma AcInBackup()
    ensures Contains("backup", "ac")
  {
    assert OccursAt("backup", "ac", 1);
  }

  /**
   * Every amenity that mentions a backup also contains "ac", which is
   * tried first, so the `bolt` icon is never shown.
   */
  lemma BoltNeverShown(item: string)
    ensures AmenityIcon(item) != "bolt"
  {
    var t := Lower(item);
    if Contains(t, "backup") {
      AcInBackup();
      ContainsWithin(t, "backup", "ac");
    }
  }

  /** A power-backup amenity without "wi-fi" gets the air-conditioning icon. */
  lemma BackupShowsAirConditioning(item: string)
    requires Contains(Lower(item), "backup") && !Contains(Lower(item), "wi-fi")
    ensures AmenityIcon(item) == "ac_unit"
  {
    AcInBackup();
    ContainsWithin(Lower(item), "backup", "ac");
  }

  /** The keywords in the corrected order: "backup" before "ac". */
  const IntendedKeywords: seq<string> := ["wi-fi", "backup", "ac", "meal", "laundry"]

  /** The icons for the corrected order, position by position. */
  const IntendedIcons: seq<string> := ["wifi", "bolt", "ac_unit", "restaurant", "local_laundry_service"]

  /** The icon choice with "backup" tried before "ac", so that backups get `bolt`. */
  function AmenityIconIntended(item: string): (icon: string)
    ensures icon == match FirstHit(Lower(item), IntendedKeywords)
      case Some(k) => IntendedIcons[k]
      case None => GenericIcon
    ensures var t := Lower(item);
      Contains(t, "backup") && !Contains(t, "wi-fi") ==> icon == "bolt"
  {
    var t := Lower(item);
    if Contains(t, "wi-fi") then "wifi"
    else if Contains(t, "backup") then "bolt"
    else if Contains(t, "ac") then "ac_unit"
    else if Contains(t, "meal") then "restaurant"
    else if Contains(t, "laundry") then "local_laundry_service"
    else "task_alt"
  }

  /**
   * The corrected choice differs from the original exactly on power-backup
   * amenities without "wi-fi": those now get `bolt` instead of `ac_unit`,
   * and every other amenity keeps its icon.
   */
  lemma IntendedIconFixesBackup(item: string)
    ensures Contains(Lower(item), "backup") && !Contains(Lower(item), "wi-fi") ==>
      AmenityIconIntended(item) == "bolt" && AmenityIcon(item) == "ac_unit"
    ensures !(Contains(Lower(item), "backup") && !Contains(Lower(item), "wi-fi")) ==>
      AmenityIconIntended(item) == AmenityIcon(item)
  {
    if Contains(Lower(item), "backup") && !Contains(Lower(item), "wi-fi") {
      BackupShowsAirConditioning(item);
    }
  }

  /** `room.photos[0]`: absent when there are no photos. */
  function MainPhoto(photos: seq<string>): (r: Option<string>)
    ensures r.Some? <==> |photos| > 0
    ensures r.Some? ==> r.value == photos[0]
  {
    if |photos| > 0 then Some(photos[0]) else None
  }

  /**
   * Gallery tile `i` (1 to 4): `photos[i] || photos[0]`, so a missing or
   * empty entry falls back to the main photo.
   */
  function GalleryTile(photos: seq<string>, i: nat): (r: Option<string>)
    requires 1 <= i <= 4
    ensures i < |photos| && photos[i] != "" ==> r == Some(photos[i])
    ensures !(i < |photos| && photos[i] != "") ==> r == MainPhoto(photos)
  {
    if i < |photos| && photos[i] != "" then Some(photos[i]) else MainPhoto(photos)
  }

  /**
   * Every tile shows one of the room's own photos, none shows anything
   * when there are no photos, and no tile is blank when the main photo is not.
   */
  lemma TilesShowOwnPhotos(photos: seq<string>, i: nat)
    requires 1 <= i <= 4
    ensures GalleryTile(photos, i).Some? ==> GalleryTile(photos, i).value in photos
    ensures GalleryTile(photos, i).None? <==> photos == []
    ensures |photos| > 0 && photos[0] != "" ==> GalleryTile(photos, i).Some? && GalleryTile(photos, i).value != ""
  {
  }

  /** `Math.max(0, photos.length - 4)`: the number on the "+N photos" badge. */
  function OverflowCount(photos: seq<string>): (n: nat)
    ensures n <= |photos|
    ensures n == 0 <==> |photos| <= 4
  {
    if |photos| > 4 then |photos| - 4 else 0
  }

  /**
   * The four uncovered tiles (the main photo and tiles 1 to 3) and the
   * badge account for every photo exactly once.
   */
  lemma PhotosAccountedFor(photos: seq<string>)
    ensures (if |photos| < 4 then |photos| else 4) + OverflowCount(photos) == |photos|
  {
  }
}
