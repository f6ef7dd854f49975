/** The records of the room catalogue and of the filter panel. */
module Types {
  import opened Wrappers

  datatype Coordinates = Coordinates(lat: real, lng: real)

  /** Sharing configuration of a room. */
  datatype Occupancy = Single | Double | Triple

  /** Who may occupy a room. */
  datatype Gender = Male | Female | Unisex

  /** The text the catalogue stores for an occupancy type. */
  function OccupancyName(o: Occupancy): string {
    match o
    case Single => "Single"
    case Double => "Double"
    case Triple => "Triple"
  }

  /** The text the catalogue stores for a gender preference. */
  function GenderName(g: Gender): string {
    match g
    case Male => "Male"
    case Female => "Female"
    case Unisex => "Unisex"
  }

  /**
   * One listing. `featured` and `isAvailable` are optional flags in the
   * catalogue; an absent flag reads as `false`. `distance` is the
   * transient distance from the user attached in near-me mode.
   */
  datatype Room = Room(
    id: string,
    name: string,
    ownerName: string,
    phoneNumber: string,
    price: int,
    location: string,
    locationLink: string,
    description: string,
    occupancyType: Occupancy,
    genderPreference: Gender,
    flatType: string,
    photos: seq<string>,
    amenities: seq<string>,
    rules: seq<string>,
    rating: real,
    reviewsCount: int,
    isVerified: bool,
    featured: bool,
    coordinates: Option<Coordinates>,
    distance: Option<real>,
    isAvailable: bool)

  /**
   * The filter panel's state. `priceRange` is the `[min, max]` pair;
   * `roomTypes` and `gender` hold the selected labels as text.
   */
  datatype FilterState = FilterState(
    priceRange: (int, int),
    roomTypes: seq<string>,
    gender: seq<string>,
    searchQuery: string,
    nearMe: bool)
}
