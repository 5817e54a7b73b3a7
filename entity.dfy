/** The value types the message sender works on: the country enumeration and the
    location record the geo lookup returns. */
module Entity {
  import opened Wrappers

  /** The countries a location can name. */
  datatype Country = RUSSIA | USA | GERMANY | BRAZIL

  /** A resolved location. Every part may be missing: a null city, country or
      street is None, and a missing building number is 0. The localhost
      location, for one, has no country at all. */
  datatype Location = Location(
    city: Option<string>,
    country: Option<Country>,
    street: Option<string>,
    building: int)
}
