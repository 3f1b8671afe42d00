/**
 * `EmergencyAirportFinder.find_emergency_airports`: resolve the position,
 * look up the aircraft, turn every nearby airport into a recommendation,
 * sort them, and double the radius while nothing is warning-free and the
 * radius is below 200 nm.
 *
 * The storage, the geocoder, the float parser and the great-circle
 * formulas are collaborators, passed in as functions.
 */
module Search {
  import opened Wrappers
  import opened Models
  import opened Matcher
  import opened Resolver
  import opened Ranking

  /** The collaborators of a search. */
  datatype Collaborators = Collaborators(
    parseFloat: string -> Option<real>,
    geocode: string -> Option<Coordinates>,
    catalog: map<string, AircraftSpecs>,
    airportsWithin: (Coordinates, int) -> seq<Airport>,
    distanceNm: (Coordinates, Coordinates) -> real,
    bearingDegrees: (Coordinates, Coordinates) -> real)

  /** What the great-circle formulas promise: a non-negative distance and a bearing in [0, 360). */
  ghost predicate GeometryValid(env: Collaborators) {
    && (forall p, q :: env.distanceNm(p, q) >= 0.0)
    && (forall p, q :: 0.0 <= env.bearingDegrees(p, q) < 360.0)
  }

  /** The exceptions a search can raise. */
  datatype SearchError =
    | UnresolvedLocation(cause: ResolveError)
    | UnknownAircraftType(aircraftType: string)
    | ZeroRunwayRequirement  // `ZeroDivisionError` in the score when the catalog gives a 0 ft requirement
    | NonPositiveRadius(radiusNm: int)  // refused up front: such a radius would never be expanded past 200 nm

  /** The largest radius, in nautical miles, that is still doubled. */
  const ExpansionLimitNm := 200

  /** Average speed by aircraft category, in knots. */
  const CategorySpeedsKts: map<string, int> := map["light" := 120, "medium" := 200, "heavy" := 250, "super" := 280]

  /** The speed the flight-time estimate uses: the category's, or 180 kt for a category the table lacks. */
  function CruiseSpeedKts(category: string): (kts: int)
    ensures kts >= 120
    ensures category in CategorySpeedsKts ==> kts == CategorySpeedsKts[category]
    ensures category !in CategorySpeedsKts ==> kts == 180
  {
    if category in CategorySpeedsKts then CategorySpeedsKts[category] else 180
  }

  /**
   * `int((distance / speed_kts) * 60) if distance > 0 else 0`: the whole
   * minutes needed at that speed, truncated (not rounded).
   */
  function FlightTimeMinutes(distanceNm: real, speedKts: int): (minutes: int)
    requires speedKts > 0
    ensures minutes >= 0
    ensures distanceNm <= 0.0 ==> minutes == 0
    ensures distanceNm > 0.0 ==>
              minutes as real <= distanceNm / speedKts as real * 60.0 < minutes as real + 1.0
  {
    if distanceNm > 0.0 then (distanceNm / speedKts as real * 60.0).Floor else 0
  }

  /**
   * The recommendation the loop body builds for one airport: the
   * calculator's distance and bearing from the origin, the matcher's score
   * and messages, and the flight time at the category's speed.
   */
  function RecommendationFor(env: Collaborators, origin: Coordinates, c: AircraftSpecs, a: Airport)
    : (r: AirportRecommendation)
    requires c.minRunwayLengthFt != 0
    ensures r.airport == a
    ensures r.distanceNm == env.distanceNm(origin, a.coordinates)
    ensures r.bearingDegrees == env.bearingDegrees(origin, a.coordinates)
    ensures r.compatibilityScore == CompatibilityScore(a, c)
    ensures r.warnings == Messages(Warnings(a, c))
    ensures r.estimatedFlightTimeMinutes == Some(FlightTimeMinutes(r.distanceNm, CruiseSpeedKts(c.category)))
  {
    var distance := env.distanceNm(origin, a.coordinates);
    AirportRecommendation(
      a,
      distance,
      env.bearingDegrees(origin, a.coordinates),
      CompatibilityScore(a, c),
      Messages(Warnings(a, c)),
      Some(FlightTimeMinutes(distance, CruiseSpeedKts(c.category))))
  }

  /** One recommendation per airport, in the order storage returned them. */
  function RecommendationsFor(env: Collaborators, origin: Coordinates, c: AircraftSpecs, airports: seq<Airport>)
    : (rs: seq<AirportRecommendation>)
    requires c.minRunwayLengthFt != 0
    ensures |rs| == |airports|
    ensures forall i :: 0 <= i < |airports| ==> rs[i] == RecommendationFor(env, origin, c, airports[i])
  {
    seq(|airports|, i requires 0 <= i < |airports| => RecommendationFor(env, origin, c, airports[i]))
  }

  /** `any(len(r.warnings) == 0 for r in recommendations)`. */
  predicate AnyWarningFree(rs: seq<AirportRecommendation>) {
    exists i :: 0 <= i < |rs| && rs[i].warnings == []
  }

  /** One pass of the search at a fixed radius, without the expansion. */
  function SearchAt(env: Collaborators, location: LocationInput, aircraftType: string, radiusNm: int)
    : (r: Result<seq<AirportRecommendation>, SearchError>)
    ensures ResolveLocation(location, env.parseFloat, env.geocode).Err? ==>
              r == Err(UnresolvedLocation(ResolveLocation(location, env.parseFloat, env.geocode).error))
    ensures ResolveLocation(location, env.parseFloat, env.geocode).Ok? && aircraftType !in env.catalog ==>
              r == Err(UnknownAircraftType(aircraftType))
    ensures r == Err(ZeroRunwayRequirement) ==>
              aircraftType in env.catalog && env.catalog[aircraftType].minRunwayLengthFt == 0
    ensures r.Ok? ==> Sorted(r.value)
  {
    match ResolveLocation(location, env.parseFloat, env.geocode)
    case Err(e) => Err(UnresolvedLocation(e))
    case Ok(origin) =>
      if aircraftType !in env.catalog then Err(UnknownAircraftType(aircraftType))
      else
        var c := env.catalog[aircraftType];
        var nearby := env.airportsWithin(origin, radiusNm);
        if c.minRunwayLengthFt == 0 && nearby != [] then Err(ZeroRunwayRequirement)
        else if nearby == [] then Ok([])
        else
          var rs := RecommendationsFor(env, origin, c, nearby);
          SortByKeySorted(rs);
          Ok(SortByKey(rs))
  }

  /** The whole search: a pass, then another at twice the radius while the policy asks for one. */
  function Search(env: Collaborators, location: LocationInput, aircraftType: string, radiusNm: int)
    : (r: Result<seq<AirportRecommendation>, SearchError>)
    requires radiusNm > 0
    ensures SearchAt(env, location, aircraftType, radiusNm).Err? ==> r == SearchAt(env, location, aircraftType, radiusNm)
    ensures r.Ok? ==> Sorted(r.value)
    decreases ExpansionLimitNm - radiusNm
  {
    match SearchAt(env, location, aircraftType, radiusNm)
    case Err(e) => Err(e)
    case Ok(rs) =>
      if !AnyWarningFree(rs) && radiusNm < ExpansionLimitNm then Search(env, location, aircraftType, radiusNm * 2)
      else Ok(rs)
  }

  /**
   * The `for airport in nearby_airports` loop: one recommendation appended
   * per airport, or the `ZeroDivisionError` of the first score computed.
   */
  method BuildRecommendations(env: Collaborators, origin: Coordinates, c: AircraftSpecs, nearby: seq<Airport>)
    returns (r: Result<seq<AirportRecommendation>, SearchError>)
    ensures r.Err? <==> c.minRunwayLengthFt == 0 && nearby != []
    ensures r.Err? ==> r.error == ZeroRunwayRequirement
    ensures r.Ok? && nearby != [] ==> r.value == RecommendationsFor(env, origin, c, nearby)
    ensures r.Ok? && nearby == [] ==> r.value == []
  {
    var recommendations: seq<AirportRecommendation> := [];
    var i := 0;
    while i < |nearby|
      invariant 0 <= i <= |nearby|
      invariant i > 0 ==> c.minRunwayLengthFt != 0
      invariant |recommendations| == i
      invariant forall k :: 0 <= k < i ==> recommendations[k] == RecommendationFor(env, origin, c, nearby[k])
    {
      var airport := nearby[i];
      var distance := env.distanceNm(origin, airport.coordinates);
      var bearing := env.bearingDegrees(origin, airport.coordinates);
      var compatible, warnings := ValidateCompatibility(airport, c);
      if c.minRunwayLengthFt == 0 {
        return Err(ZeroRunwayRequirement);
      }
      var score := CompatibilityScore(airport, c);
      var speedKts := CruiseSpeedKts(c.category);
      var flightTime := FlightTimeMinutes(distance, speedKts);
      var recommendation := AirportRecommendation(airport, distance, bearing, score, warnings, Some(flightTime));
      assert recommendation == RecommendationFor(env, origin, c, airport);
      recommendations := recommendations + [recommendation];
      i := i + 1;
    }
    return Ok(recommendations);
  }

  /**
   * `find_emergency_airports`, with its self-call written as a loop over the
   * radius: the result is the one the recursive definition gives.
   */
  method FindEmergencyAirports(env: Collaborators, location: LocationInput, aircraftType: string, maxDistanceNm: int)
    returns (r: Result<seq<AirportRecommendation>, SearchError>)
    ensures maxDistanceNm > 0 ==> r == Search(env, location, aircraftType, maxDistanceNm)
    ensures maxDistanceNm <= 0 ==> r == Err(NonPositiveRadius(maxDistanceNm))
  {
    if maxDistanceNm <= 0 {
      return Err(NonPositiveRadius(maxDistanceNm));
    }
    var radius := maxDistanceNm;
    while true
      invariant radius > 0
      invariant Search(env, location, aircraftType, radius) == Search(env, location, aircraftType, maxDistanceNm)
      decreases ExpansionLimitNm - radius
    {
      var resolved := ResolveLocation(location, env.parseFloat, env.geocode);
      if resolved.Err? {
        return Err(UnresolvedLocation(resolved.error));
      }
      if aircraftType !in env.catalog {
        return Err(UnknownAircraftType(aircraftType));
      }
      var specs := env.catalog[aircraftType];
      var nearby := env.airportsWithin(resolved.value, radius);
      var built := BuildRecommendations(env, resolved.value, specs, nearby);
      if built.Err? {
        return Err(built.error);
      }
      var recommendations := SortByKey(built.value);
      if !AnyWarningFree(recommendations) && radius < ExpansionLimitNm {
        radius := radius * 2;
      } else {
        return Ok(recommendations);
      }
    }
  }

  // ---- properties of the search ----

  /**
   * One pass maps the airports storage returns one-to-one onto
   * recommendations: the result is a reordering of one recommendation per
   * airport, and airports sharing a sort key keep their storage order.
   */
  lemma SearchAtOnePerAirport(env: Collaborators, location: LocationInput, aircraftType: string, radiusNm: int,
                              y: AirportRecommendation)
    requires SearchAt(env, location, aircraftType, radiusNm).Ok?
    ensures var origin := ResolveLocation(location, env.parseFloat, env.geocode).value;
            var c := env.catalog[aircraftType];
            var nearby := env.airportsWithin(origin, radiusNm);
            var rs := SearchAt(env, location, aircraftType, radiusNm).value;
            && |rs| == |nearby|
            && (nearby != [] ==> multiset(rs) == multiset(RecommendationsFor(env, origin, c, nearby)))
            && (nearby != [] ==> WithKeyOf(rs, y) == WithKeyOf(RecommendationsFor(env, origin, c, nearby), y))
  {
    var origin := ResolveLocation(location, env.parseFloat, env.geocode).value;
    var c := env.catalog[aircraftType];
    var nearby := env.airportsWithin(origin, radiusNm);
    if nearby != [] {
      SortByKeyPermutes(RecommendationsFor(env, origin, c, nearby));
      SortByKeyStable(RecommendationsFor(env, origin, c, nearby), y);
    }
  }

  /**
   * Every search that succeeds returns the pass at some radius no smaller
   * than the one asked for; from a radius below 200 nm that radius stays
   * below 400 nm, and from 200 nm or more no expansion happens.
   */
  lemma {:induction false} SearchSettlesAtSomeRadius(env: Collaborators, location: LocationInput,
                                                     aircraftType: string, radiusNm: int)
    requires radiusNm > 0
    ensures exists finalNm :: && radiusNm <= finalNm
                              && (radiusNm < ExpansionLimitNm ==> finalNm < 2 * ExpansionLimitNm)
                              && (radiusNm >= ExpansionLimitNm ==> finalNm == radiusNm)
                              && Search(env, location, aircraftType, radiusNm) == SearchAt(env, location, aircraftType, finalNm)
    decreases ExpansionLimitNm - radiusNm
  {
    match SearchAt(env, location, aircraftType, radiusNm)
    case Err(_) =>
      assert Search(env, location, aircraftType, radiusNm) == SearchAt(env, location, aircraftType, radiusNm);
    case Ok(rs) =>
      if !AnyWarningFree(rs) && radiusNm < ExpansionLimitNm {
        SearchSettlesAtSomeRadius(env, location, aircraftType, radiusNm * 2);
      } else {
        assert Search(env, location, aircraftType, radiusNm) == SearchAt(env, location, aircraftType, radiusNm);
      }
  }

  /**
   * The expansion policy: with nothing warning-free below 200 nm the search
   * gives exactly the search at twice the radius; otherwise the pass itself.
   */
  lemma SearchExpands(env: Collaborators, location: LocationInput, aircraftType: string, radiusNm: int)
    requires radiusNm > 0
    requires SearchAt(env, location, aircraftType, radiusNm).Ok?
    ensures var rs := SearchAt(env, location, aircraftType, radiusNm).value;
            && (!AnyWarningFree(rs) && radiusNm < ExpansionLimitNm ==>
                  Search(env, location, aircraftType, radiusNm) == Search(env, location, aircraftType, radiusNm * 2))
            && (AnyWarningFree(rs) || radiusNm >= ExpansionLimitNm ==>
                  Search(env, location, aircraftType, radiusNm) == Ok(rs))
  {
  }

  /**
   * With no warning-free airport within 100 nm but a pass at 200 nm that has
   * one, a search from 100 nm returns the 200 nm pass.
   */
  lemma ExpandedOnceToTwoHundred(env: Collaborators, location: LocationInput, aircraftType: string)
    requires SearchAt(env, location, aircraftType, 100).Ok?
    requires !AnyWarningFree(SearchAt(env, location, aircraftType, 100).value)
    requires SearchAt(env, location, aircraftType, 200).Ok?
    ensures Search(env, location, aircraftType, 100) == SearchAt(env, location, aircraftType, 200)
  {
  }

  /**
   * An aircraft type missing from the catalog is an error raised before
   * storage is asked anything: the outcome does not depend on storage.
   */
  lemma UnknownTypeFailsBeforeQuery(env: Collaborators, location: LocationInput, aircraftType: string, radiusNm: int,
                                    otherStorage: (Coordinates, int) -> seq<Airport>)
    requires radiusNm > 0
    requires aircraftType !in env.catalog
    requires ResolveLocation(location, env.parseFloat, env.geocode).Ok?
    ensures Search(env, location, aircraftType, radiusNm) == Err(UnknownAircraftType(aircraftType))
    ensures Search(env.(airportsWithin := otherStorage), location, aircraftType, radiusNm)
            == Search(env, location, aircraftType, radiusNm)
  {
  }

  /**
   * Every recommendation of a pass: its warnings are the matcher's, so an
   * empty list means compatible; its flight time is the truncated estimate;
   * with valid geometry, a positive requirement and a non-negative runway,
   * its bearing is in [0, 360) and its score in [0, 1].
   */
  lemma RecommendationFacts(env: Collaborators, origin: Coordinates, c: AircraftSpecs, a: Airport)
    requires c.minRunwayLengthFt != 0
    ensures var r := RecommendationFor(env, origin, c, a);
            && (r.warnings == [] ==> Compatible(a, c))
            && r.estimatedFlightTimeMinutes == Some(FlightTimeMinutes(r.distanceNm, CruiseSpeedKts(c.category)))
            && (GeometryValid(env) ==> r.distanceNm >= 0.0 && 0.0 <= r.bearingDegrees < 360.0)
            && (c.minRunwayLengthFt > 0 && a.longestRunwayFt >= 0 ==> 0.0 <= r.compatibilityScore <= 1.0)
  {
    WarningsSpec(a, c);
    var ws := Warnings(a, c);
    if LengthFails(a, c) {
      assert |Messages(ws)| > 0;
    } else if WidthFails(a, c) {
      var i :| 0 <= i < |ws| && ws[i].RunwayTooNarrow?;
      assert |Messages(ws)| > i;
    }
  }

  /**
   * A compatible airport that still draws a weight or surface warning is
   * ranked with the airports that have warnings, not with the warning-free.
   */
  lemma SoftWarningSortsSecond(env: Collaborators, origin: Coordinates, c: AircraftSpecs, a: Airport)
    requires c.minRunwayLengthFt != 0
    requires Compatible(a, c) && (WeightFails(a, c) || SurfaceFails(a, c))
    ensures Group(RecommendationFor(env, origin, c, a)) == 1
  {
    WarningsSpec(a, c);
    var ws := Warnings(a, c);
    if WeightFails(a, c) {
      var i :| 0 <= i < |ws| && ws[i].WeightExceeded?;
      assert |Messages(ws)| > i;
    } else {
      var i :| 0 <= i < |ws| && ws[i].SoftSurface?;
      assert |Messages(ws)| > i;
    }
  }

  // ---- the recursion as written ----

  /** What one call of `find_emergency_airports` computes before deciding to call itself: the pass at a radius. */
  type Pass = int -> Result<seq<AirportRecommendation>, SearchError>

  /** The passes of one request: `SearchAt` with the location and the aircraft type fixed. */
  function PassOf(env: Collaborators, location: LocationInput, aircraftType: string): Pass {
    radiusNm => SearchAt(env, location, aircraftType, radiusNm)
  }

  /**
   * The self-call of `find_emergency_airports` as written, over the passes
   * `pass` gives: each self-call takes one level of the interpreter's stack
   * and `depth` levels are left; `None` is the `RecursionError` raised when
   * they run out.
   */
  function Expand(pass: Pass, radiusNm: int, depth: nat): (r: Option<Result<seq<AirportRecommendation>, SearchError>>)
    ensures r.Some? && r.value.Err? ==> exists x :: pass(x) == r.value
    decreases depth
  {
    if depth == 0 then None
    else
      match pass(radiusNm)
      case Err(e) => Some(Err(e))
      case Ok(rs) =>
        if !AnyWarningFree(rs) && radiusNm < ExpansionLimitNm then Expand(pass, radiusNm * 2, depth - 1)
        else Some(Ok(rs))
  }

  /** `find_emergency_airports` as written, for any radius, with `depth` stack levels left. */
  function SearchAsWritten(env: Collaborators, location: LocationInput, aircraftType: string, radiusNm: int,
                           depth: nat): (r: Option<Result<seq<AirportRecommendation>, SearchError>>)
    ensures r.Some? && r.value.Ok? ==> Sorted(r.value.value)
  {
    ExpandSorted(PassOf(env, location, aircraftType), radiusNm, depth);
    Expand(PassOf(env, location, aircraftType), radiusNm, depth)
  }

  /** When every pass is sorted, so is whatever the recursion returns. */
  lemma {:induction false} ExpandSorted(pass: Pass, radiusNm: int, depth: nat)
    requires forall x :: pass(x).Ok? ==> Sorted(pass(x).value)
    ensures var r := Expand(pass, radiusNm, depth); r.Some? && r.value.Ok? ==> Sorted(r.value.value)
    decreases depth
  {
    if depth > 0 {
      ExpandSorted(pass, radiusNm * 2, depth - 1);
    }
  }

  /**
   * Doubling 0 gives 0: when the pass at radius 0 has nothing warning-free,
   * every self-call asks for radius 0 again and the recursion never returns.
   */
  lemma {:induction false} ExpandStuckAtZero(pass: Pass, depth: nat)
    requires pass(0).Ok? && !AnyWarningFree(pass(0).value)
    ensures Expand(pass, 0, depth) == None
  {
    if depth > 0 {
      ExpandStuckAtZero(pass, depth - 1);
    }
  }

  /**
   * From radius 0 with nothing warning-free, the search as written never
   * returns, whatever depth the stack allows.
   */
  lemma ZeroRadiusNeverReturns(env: Collaborators, location: LocationInput, aircraftType: string, depth: nat)
    requires SearchAt(env, location, aircraftType, 0).Ok?
    requires !AnyWarningFree(SearchAt(env, location, aircraftType, 0).value)
    ensures SearchAsWritten(env, location, aircraftType, 0, depth) == None
  {
    ExpandStuckAtZero(PassOf(env, location, aircraftType), depth);
  }

  /** The number of passes a search from a positive radius makes at most. */
  function PassesNeeded(radiusNm: int): (n: nat)
    requires radiusNm > 0
    ensures n >= 1
    ensures n == 1 <==> radiusNm >= ExpansionLimitNm
    decreases ExpansionLimitNm - radiusNm
  {
    if radiusNm >= ExpansionLimitNm then 1 else 1 + PassesNeeded(radiusNm * 2)
  }

  /** Below 200 nm a search needs one pass more than from twice the radius. */
  lemma PassesNeededStep(radiusNm: int)
    requires 0 < radiusNm < ExpansionLimitNm
    ensures PassesNeeded(radiusNm) == 1 + PassesNeeded(radiusNm * 2)
  {
  }

  /** Nine passes always suffice: from 1 nm the radii are 1, 2, 4, ..., 256. */
  lemma {:induction false} PassesNeededAtMostNine(radiusNm: int)
    requires radiusNm > 0
    ensures radiusNm >= 100 ==> PassesNeeded(radiusNm) <= 2
    ensures radiusNm >= 50 ==> PassesNeeded(radiusNm) <= 3
    ensures radiusNm >= 25 ==> PassesNeeded(radiusNm) <= 4
    ensures radiusNm >= 13 ==> PassesNeeded(radiusNm) <= 5
    ensures radiusNm >= 7 ==> PassesNeeded(radiusNm) <= 6
    ensures radiusNm >= 4 ==> PassesNeeded(radiusNm) <= 7
    ensures radiusNm >= 2 ==> PassesNeeded(radiusNm) <= 8
    ensures PassesNeeded(radiusNm) <= 9
    decreases ExpansionLimitNm - radiusNm
  {
    if radiusNm < ExpansionLimitNm {
      PassesNeededAtMostNine(radiusNm * 2);
    }
  }

  /**
   * `outcome` settles the way the doubling policy says, at every radius from
   * `radiusNm` on: the pass's error, the outcome at twice the radius, or the pass.
   */
  ghost predicate FollowsPolicy(pass: Pass, outcome: int -> Result<seq<AirportRecommendation>, SearchError>,
                                radiusNm: int) {
    forall x {:trigger pass(x)} :: radiusNm <= x ==>
      outcome(x) == match pass(x)
                    case Err(e) => Err(e)
                    case Ok(rs) => if !AnyWarningFree(rs) && x < ExpansionLimitNm then outcome(x * 2) else Ok(rs)
  }

  /**
   * With room for the passes needed, the recursion as written returns what
   * any outcome that follows the doubling policy gives.
   */
  lemma {:induction false} ExpandAgrees(pass: Pass, outcome: int -> Result<seq<AirportRecommendation>, SearchError>,
                                        radiusNm: int, depth: nat)
    requires radiusNm > 0 && depth >= PassesNeeded(radiusNm)
    requires FollowsPolicy(pass, outcome, radiusNm)
    ensures Expand(pass, radiusNm, depth) == Some(outcome(radiusNm))
    decreases ExpansionLimitNm - radiusNm
  {
    if pass(radiusNm).Ok? && !AnyWarningFree(pass(radiusNm).value) && radiusNm < ExpansionLimitNm {
      PassesNeededStep(radiusNm);
      ExpandAgrees(pass, outcome, radiusNm * 2, depth - 1);
    }
  }

  /** `Search` at each positive radius, as one function of the radius. */
  function SearchOutcome(env: Collaborators, location: LocationInput, aircraftType: string)
    : int -> Result<seq<AirportRecommendation>, SearchError>
  {
    radiusNm => if radiusNm > 0 then Search(env, location, aircraftType, radiusNm) else SearchAt(env, location, aircraftType, radiusNm)
  }

  /** `Search` follows the doubling policy from any positive radius. */
  lemma SearchFollowsPolicy(env: Collaborators, location: LocationInput, aircraftType: string, radiusNm: int)
    requires radiusNm > 0
    ensures FollowsPolicy(PassOf(env, location, aircraftType), SearchOutcome(env, location, aircraftType), radiusNm)
  {
    var pass := PassOf(env, location, aircraftType);
    var outcome := SearchOutcome(env, location, aircraftType);
    forall x | radiusNm <= x
      ensures outcome(x) == match pass(x)
                            case Err(e) => Err(e)
                            case Ok(rs) => if !AnyWarningFree(rs) && x < ExpansionLimitNm then outcome(x * 2) else Ok(rs)
    {
      assert outcome(x) == Search(env, location, aircraftType, x);
    }
  }

  /**
   * From a positive radius, with room for the passes it needs (9 levels
   * always suffice), the search as written returns what `Search` returns.
   */
  lemma SearchAsWrittenAgrees(env: Collaborators, location: LocationInput, aircraftType: string,
                              radiusNm: int, depth: nat)
    requires radiusNm > 0 && depth >= PassesNeeded(radiusNm)
    ensures SearchAsWritten(env, location, aircraftType, radiusNm, depth) == Some(Search(env, location, aircraftType, radiusNm))
  {
    SearchFollowsPolicy(env, location, aircraftType, radiusNm);
    ExpandAgrees(PassOf(env, location, aircraftType), SearchOutcome(env, location, aircraftType), radiusNm, depth);
  }
}
