/** The restaurant entity, the cuisine enumeration and the fixed catalog that
    `RestaurantManager` hands out. */
module Catalog {
  import opened Text

  /** The cuisines; each case's raw value is its own name. */
  datatype CuisineOption = Russian | Georgian | Italian | French | Japanese

  /** The `String` raw value of a cuisine case. */
  function RawValue(c: CuisineOption): string {
    match c
    case Russian => "russian"
    case Georgian => "georgian"
    case Italian => "italian"
    case French => "french"
    case Japanese => "japanese"
  }

  /** Raw values are single lower-case words, and different cases have different ones. */
  lemma RawValueFacts(c: CuisineOption, d: CuisineOption)
    ensures RawValue(c) != []
    ensures IsLowerString(RawValue(c))
    ensures forall i :: 0 <= i < |RawValue(c)| ==> !IsWordSeparator(RawValue(c)[i])
    ensures RawValue(c) == RawValue(d) ==> c == d
  {
  }

  /** A restaurant: an identifier, a title and a cuisine. */
  datatype Restaurant = Restaurant(id: string, title: string, cuisine: CuisineOption)

  /** The catalog that `getAllRestaurants` returns, in its order. */
  function AllRestaurants(): seq<Restaurant> {
    [
      Restaurant("1", "Khinkali", Georgian),
      Restaurant("2", "Syrniki", Russian),
      Restaurant("3", "Lasania", Italian),
      Restaurant("4", "Ratatouille", French),
      Restaurant("5", "Ramen", Japanese)
    ]
  }

  /** The identifiers are distinct (`Identifiable`), and every cuisine occurs exactly once. */
  lemma CatalogFacts()
    ensures |AllRestaurants()| == 5
    ensures forall i, j :: 0 <= i < j < |AllRestaurants()| ==>
      AllRestaurants()[i].id != AllRestaurants()[j].id &&
      AllRestaurants()[i].cuisine != AllRestaurants()[j].cuisine
  {
  }

  /** Why a load fails: `getAllRestaurants` is declared `throws`. */
  datatype LoadError = LoadError(message: string)

  /** The outcome of awaiting `getAllRestaurants`. */
  datatype LoadResult = Success(restaurants: seq<Restaurant>) | Failure(error: LoadError)
}
