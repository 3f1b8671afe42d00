/**
 * The records of the emergency airport finder: positions, airports, aircraft
 * specifications and the recommendations a search returns. Python's floats
 * are modelled as reals and its `datetime` timestamps as reals (seconds).
 */
module Models {
  import opened Wrappers

  /** A geographic position in degrees. */
  datatype Coordinates = Coordinates(latitude: real, longitude: real) {
    /** The range check `Coordinates` makes when it is built. */
    predicate Valid() {
      -90.0 <= latitude <= 90.0 && -180.0 <= longitude <= 180.0
    }
  }

  /** The `ValueError` raised by an out-of-range `Coordinates`. */
  datatype CoordinateError = InvalidLatitude(latitude: real) | InvalidLongitude(longitude: real)

  /**
   * Building `Coordinates(lat, lon)`: it succeeds exactly for an in-range pair
   * (bounds included); the latitude is checked first, so a pair with both
   * values out of range reports the latitude.
   */
  function MakeCoordinates(lat: real, lon: real): (r: Result<Coordinates, CoordinateError>)
    ensures r.Ok? <==> -90.0 <= lat <= 90.0 && -180.0 <= lon <= 180.0
    ensures r.Ok? ==> r.value == Coordinates(lat, lon) && r.value.Valid()
    ensures !(-90.0 <= lat <= 90.0) ==> r == Err(InvalidLatitude(lat))
    ensures -90.0 <= lat <= 90.0 && !(-180.0 <= lon <= 180.0) ==> r == Err(InvalidLongitude(lon))
  {
    if !(-90.0 <= lat <= 90.0) then Err(InvalidLatitude(lat))
    else if !(-180.0 <= lon <= 180.0) then Err(InvalidLongitude(lon))
    else Ok(Coordinates(lat, lon))
  }

  /** An airport and its longest runway; the last three fields are optional. */
  datatype Airport = Airport(
    icaoCode: string,
    name: string,
    coordinates: Coordinates,
    elevationFt: int,
    longestRunwayFt: int,
    runwayWidthFt: int,
    surfaceType: string,
    weightCapacityLbs: Option<int>,
    contactInfo: Option<string>,
    lastUpdated: Option<real>)

  /**
   * `Airport(...)` called with the seven required fields only: weight
   * capacity, contact information and update time are absent.
   */
  function NewAirport(icaoCode: string, name: string, coordinates: Coordinates, elevationFt: int,
                      longestRunwayFt: int, runwayWidthFt: int, surfaceType: string): (a: Airport)
    ensures a.weightCapacityLbs == None && a.contactInfo == None && a.lastUpdated == None
    ensures a.icaoCode == icaoCode && a.name == name && a.coordinates == coordinates
    ensures a.elevationFt == elevationFt && a.longestRunwayFt == longestRunwayFt
    ensures a.runwayWidthFt == runwayWidthFt && a.surfaceType == surfaceType
  {
    Airport(icaoCode, name, coordinates, elevationFt, longestRunwayFt, runwayWidthFt, surfaceType,
            None, None, None)
  }

  /** What an aircraft type needs from a runway, and its category ("light", "medium", "heavy", "super"). */
  datatype AircraftSpecs = AircraftSpecs(
    aircraftType: string,
    minRunwayLengthFt: int,
    minRunwayWidthFt: int,
    maxWeightLbs: int,
    approachSpeedKts: int,
    category: string)

  /** One candidate airport as a search reports it. */
  datatype AirportRecommendation = AirportRecommendation(
    airport: Airport,
    distanceNm: real,
    bearingDegrees: real,
    compatibilityScore: real,
    warnings: seq<string>,
    estimatedFlightTimeMinutes: Option<int>)
}
