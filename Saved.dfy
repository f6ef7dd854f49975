/** The bookmarks page: the catalogue rooms whose ids the user has saved. */
module Saved {
  import opened Types
  import Seqs

  /** The callback handed to `filter`: the room's id is among the saved ones. */
  function SavedTest(ids: seq<string>): Room -> bool {
    (room: Room) => room.id in ids
  }

  /** `rooms.filter(r => savedRoomIds.includes(r.id))`. */
  function SavedRooms(rooms: seq<Room>, ids: seq<string>): (r: seq<Room>)
    ensures forall room :: room in r <==> room in rooms && room.id in ids
    ensures forall room: Room :: room.id in ids ==> multiset(r)[room] == multiset(rooms)[room]
    ensures Seqs.IsSubsequence(r, rooms)
    ensures ids == [] ==> r == []
  {
    Seqs.FilterIsSubsequence(rooms, SavedTest(ids));
    Seqs.Filter(rooms, SavedTest(ids))
  }

  /**
   * The count shown in the heading: the number of saved rooms listed, at
   * most the catalogue size, and zero
   * exactly when no catalogue room is saved.
   */
  function SavedCount(rooms: seq<Room>, ids: seq<string>): (n: nat)
    ensures n == |SavedRooms(rooms, ids)|
    ensures n <= |rooms|
    ensures n == 0 <==> forall room :: room in rooms ==> room.id !in ids
  {
    var saved := SavedRooms(rooms, ids);
    assert saved != [] ==> saved[0] in saved;
    |saved|
  }

  /**
   * Only the set of saved ids matters: repeating an id, reordering the
   * list, or saving an id no room has changes nothing.
   */
  lemma OnlyIdSetMatters(rooms: seq<Room>, ids: seq<string>, ids': seq<string>)
    requires forall room :: room in rooms ==> (room.id in ids <==> room.id in ids')
    ensures SavedRooms(rooms, ids) == SavedRooms(rooms, ids')
  {
    Seqs.FilterCongruent(rooms, SavedTest(ids), SavedTest(ids'));
  }

  /** Saving an id twice does not show its room twice. */
  lemma DuplicateIdsIgnored(rooms: seq<Room>, ids: seq<string>)
    ensures SavedRooms(rooms, ids + ids) == SavedRooms(rooms, ids)
  {
    OnlyIdSetMatters(rooms, ids + ids, ids);
  }

  /** An id that no catalogue room has contributes nothing. */
  lemma UnknownIdIgnored(rooms: seq<Room>, ids: seq<string>, id: string)
    requires forall room :: room in rooms ==> room.id != id
    ensures SavedRooms(rooms, ids + [id]) == SavedRooms(rooms, ids)
  {
    OnlyIdSetMatters(rooms, ids + [id], ids);
  }

  /** Catalogue order is kept: the saved rooms of a catalogue split in two are those of each part, in turn. */
  lemma SavedKeepsCatalogOrder(a: seq<Room>, b: seq<Room>, ids: seq<string>)
    ensures SavedRooms(a + b, ids) == SavedRooms(a, ids) + SavedRooms(b, ids)
  {
    Seqs.FilterAppend(a, b, SavedTest(ids));
  }
}
