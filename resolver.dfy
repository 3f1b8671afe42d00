/**
 * `LocationResolver.resolve_location`: a position given as coordinates is
 * used as is; a text is trimmed and read as "lat,lon" when it is one, and is
 * otherwise handed to the geocoder.
 */
module Resolver {
  import opened Wrappers
  import opened Strings
  import opened Models

  /** What a caller may pass as a location. */
  datatype LocationInput = Given(coordinates: Coordinates) | Text(text: string)

  /** The `ValueError` raised when neither parsing nor geocoding gives a position. */
  datatype ResolveError = CannotResolve(location: string)

  /**
   * The `try` block that reads "lat,lon": the text must split on commas into
   * exactly two parts that both parse as numbers (after trimming each) and
   * form in-range coordinates; every failure is a caught `ValueError`, here
   * `None`. `parseFloat` is Python's `float()` on a string.
   */
  function ParsePair(location: string, parseFloat: string -> Option<real>): (r: Option<Coordinates>)
    ensures r.Some? ==> r.value.Valid() && Count(location, ',') == 1
  {
    var parts := Split(location, ',');
    if |parts| != 2 then None
    else
      match (parseFloat(Strip(parts[0])), parseFloat(Strip(parts[1])))
      case (Some(lat), Some(lon)) =>
        (match MakeCoordinates(lat, lon)
         case Ok(c) => Some(c)
         case Err(_) => None)
      case _ => None
  }

  /** The geocoding branch: the geocoder's answer, or an error when it has none. */
  function Geocoded(location: string, geocode: string -> Option<Coordinates>): (r: Result<Coordinates, ResolveError>)
    ensures r.Ok? <==> geocode(location).Some?
    ensures r.Ok? ==> r.value == geocode(location).value
    ensures r.Err? ==> r.error == CannotResolve(location)
  {
    match geocode(location)
    case Some(c) => Ok(c)
    case None => Err(CannotResolve(location))
  }

  /**
   * `resolve_location`, with the geocoding client (and its cache) as the
   * oracle `geocode`.
   */
  function ResolveLocation(input: LocationInput, parseFloat: string -> Option<real>,
                           geocode: string -> Option<Coordinates>): (r: Result<Coordinates, ResolveError>)
    ensures input.Given? ==> r == Ok(input.coordinates)
    ensures input.Text? && ParsePair(Strip(input.text), parseFloat).Some? ==>
              r == Ok(ParsePair(Strip(input.text), parseFloat).value)
    ensures input.Text? && ParsePair(Strip(input.text), parseFloat).None? ==>
              r == Geocoded(Strip(input.text), geocode)
  {
    match input
    case Given(c) => Ok(c)
    case Text(s) =>
      var location := Strip(s);
      match ParsePair(location, parseFloat)
      case Some(c) => Ok(c)
      case None => Geocoded(location, geocode)
  }

  /** A geocoder that only answers with valid positions. */
  ghost predicate GeocoderValid(geocode: string -> Option<Coordinates>) {
    forall s :: geocode(s).Some? ==> geocode(s).value.Valid()
  }

  /** Every resolved text position satisfies the range invariant. */
  lemma ResolvedTextIsValid(s: string, parseFloat: string -> Option<real>, geocode: string -> Option<Coordinates>)
    requires GeocoderValid(geocode)
    ensures var r := ResolveLocation(Text(s), parseFloat, geocode);
            r.Ok? ==> r.value.Valid()
  {
  }

  /** The text "a,b" (no other comma) is read as the pair its two parts parse to. */
  lemma ParsePairOfTwoParts(a: string, b: string, parseFloat: string -> Option<real>)
    requires ',' !in a && ',' !in b
    ensures ParsePair(a + "," + b, parseFloat) ==
              match (parseFloat(Strip(a)), parseFloat(Strip(b)))
              case (Some(lat), Some(lon)) =>
                (if -90.0 <= lat <= 90.0 && -180.0 <= lon <= 180.0 then Some(Coordinates(lat, lon)) else None)
              case _ => None
  {
    assert a + "," + b == a + [','] + b;
    SplitOne(a, b, ',');
  }

  /**
   * A trimmed text "a,b" whose parts parse to an in-range pair resolves to
   * that pair, whatever the geocoder would say; an out-of-range pair is
   * handed to the geocoder as if it were an address.
   */
  lemma {:induction false} ResolveNumericPair(s: string, a: string, b: string, lat: real, lon: real,
                                              parseFloat: string -> Option<real>,
                                              geocode: string -> Option<Coordinates>)
    requires Strip(s) == a + "," + b && ',' !in a && ',' !in b
    requires parseFloat(Strip(a)) == Some(lat) && parseFloat(Strip(b)) == Some(lon)
    ensures -90.0 <= lat <= 90.0 && -180.0 <= lon <= 180.0 ==>
              ResolveLocation(Text(s), parseFloat, geocode) == Ok(Coordinates(lat, lon))
    ensures !(-90.0 <= lat <= 90.0 && -180.0 <= lon <= 180.0) ==>
              ResolveLocation(Text(s), parseFloat, geocode) == Geocoded(Strip(s), geocode)
  {
    ParsePairOfTwoParts(a, b, parseFloat);
  }

  /** A text with no comma, or with more than one, always goes to the geocoder. */
  lemma {:induction false} NotAPairIsGeocoded(s: string, parseFloat: string -> Option<real>,
                                              geocode: string -> Option<Coordinates>)
    requires Count(Strip(s), ',') != 1
    ensures ResolveLocation(Text(s), parseFloat, geocode) == Geocoded(Strip(s), geocode)
  {
  }
}
