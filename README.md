# Emergency airport finder — a verified model of its core

This project models the decision core of the emergency airport finder
(`kdiri/mcp-aviation`). Given a position and an aircraft type, the finder
returns the nearby airports whose runways can take that aircraft:

- **`AirportMatcher`** (`matcher.dfy`). It runs the four compatibility checks.
  Runway length and width are hard checks; weight capacity and soft surface
  are soft ones. It builds the warning messages and the continuous
  compatibility score.
- **`LocationResolver.resolve_location`** (`resolver.dfy`). A `Coordinates`
  value is used as is. A text is trimmed, read as `"lat,lon"` when it is one,
  and otherwise passed to the geocoder.
- **`EmergencyAirportFinder.find_emergency_airports`** (`search.dfy`,
  `ranking.dfy`). One recommendation is built per nearby airport. The list
  is sorted stably by (has warnings, distance). The radius is doubled while
  no recommendation is warning-free and the radius is below 200 nm.
- **`InMemoryCache`, `cache_result` and the two key builders** (`cache.dfy`).
  This is a time-to-live cache. It is a class whose `entries` map the methods
  update, with the clock passed in as `now`.
- **The data records** (`models.dfy`): `Coordinates` with its range check,
  `Airport`, `AircraftSpecs` and `AirportRecommendation`.
- **`OurAirportsClient`** (`ourairports.dfy`), without its HTTP and CSV
  layers:
  - the row filter of `fetch_airports`;
  - `_parse_airport_row`;
  - `_safe_int`, i.e. `int(float(s))`;
  - the grouping loop of `fetch_runways`;
  - the merge `update_airports_with_runway_data`. It works in place on an
    array of airports and keeps those whose longest runway is over 500 ft.

`strings.dfy` holds the text helpers the source takes from Python's `str`:
`strip`, `lower`, `split`, decimal formatting and digit parsing.
`wrappers.dfy` holds `Option` and `Result`.

Some collaborators sit outside this core. These are the database, the
geocoding client, Python's `float()` on a string, and the great-circle
distance and bearing formulas. Each is a function parameter
(`Search.Collaborators`), so every property holds for any behaviour of them.
A few properties need more of them, such as a valid position or a
non-negative distance. Those state that need as a predicate:
`Resolver.GeocoderValid` and `Search.GeometryValid`.

## Model

| member | source | states |
|---|---|---|
| Models.MakeCoordinates | src/data/models.py:14-19 | A pair is accepted exactly when the latitude is in [-90, 90] and the longitude in [-180, 180], bounds included. A bad latitude is reported before a bad longitude. |
| Models.NewAirport | src/data/models.py:22-34 | An airport built from the required fields carries each of them as given (code, name, position, elevation, runway length, width and surface) and has no weight capacity, no contact and no update time. |
| Matcher.Message | src/core/engine.py:70-95 | Each warning's message opens with the phrase of its own check: "Runway too short: ", "Runway too narrow: ", "Weight capacity may be exceeded: " or "Soft surface (". |
| Matcher.Messages | src/core/engine.py:65-97 | There is one message per warning, in the same order, each the message of that warning. |
| Matcher.MessageInjective | src/core/engine.py:70-95 | Different warnings give different messages, provided no soft-surface warning names a surface containing ")". The kind, both figures, or the surface and category can be read back from the text. |
| Matcher.MessagesDetermineWarnings | src/core/engine.py:62-97 | Two checks whose message lists agree found the same warnings with the same figures. This holds because every surface the soft-surface check reports is "grass", "dirt" or "gravel" in some case, so it holds no ")". |
| Matcher.Warnings | src/core/engine.py:64-95 | The emitted warnings are one per failed check, in check order. Each warning describes its own check, so there are at most four. |
| Matcher.WarningsSpec | src/core/engine.py:67-95 | Each kind of warning is present if and only if its check fails. A failed length check is always the first warning. |
| Matcher.ValidateCompatibility | src/core/engine.py:62-97 | The flag is true exactly when neither the length nor the width check fails. The messages are those of the warnings of `Matcher.Warnings`, in order. |
| Matcher.CompatibleIffNoHardWarning | src/core/engine.py:65-81 | An airport is compatible if and only if no warning comes from a hard check. Weight and surface warnings never make it incompatible. |
| Matcher.WidthWithinToleranceIsAccepted | src/core/engine.py:74-81 | An unknown (0) width, or one within 5 ft of the requirement, never gives a width warning. Compatibility then depends on length alone. |
| Matcher.LengthFactor | src/core/engine.py:104-111 | The length multiplier equals the ratio below 1. It is at least 0.8 from 1 on, never above 1, and exactly 1 if and only if the ratio is at least 1.5. |
| Matcher.SurfaceFactor | src/core/engine.py:113-119 | The surface multiplier lies in [0.5, 1]. It is 1 if and only if the lower-cased surface is asphalt, concrete or paved. An unlisted surface gives 0.8. |
| Matcher.CompatibilityScore | src/core/engine.py:100-121 | The capped score equals the product of the two multipliers, so the cap never binds. It lies in [0, 1] for a positive requirement and a non-negative runway. |
| Matcher.ScoreIsOneIff | src/core/engine.py:100-121 | The score is 1 if and only if the runway is at least 1.5 times the requirement and the surface is paved. |
| Matcher.ShortRunwayCanOutscore | src/core/engine.py:106-111 | The length multiplier is not monotone: a ratio of 0.9 scores more than a ratio of exactly 1. |
| Matcher.CessnaOnShortGrassStrip | src/core/engine.py:67-121 | A 1200 ft aircraft at a 1000 ft grass strip is incompatible, and the length warning comes first. It scores lower than the same strip at 1400 ft. |
| Resolver.ParsePair | src/core/engine.py:141-148 | A parsed pair is always in range. It comes from a text with exactly one comma. |
| Resolver.Geocoded | src/core/engine.py:151-159 | Geocoding succeeds exactly when the geocoder answers, and returns its answer. Otherwise the error names the trimmed location. |
| Resolver.ResolveLocation | src/core/engine.py:132-161 | Given coordinates are returned unchanged. A trimmed text that parses as a pair gives that pair. Any other text gives the geocoding outcome. |
| Resolver.ResolvedTextIsValid | src/core/engine.py:141-156 | With a geocoder that answers only with valid positions, every resolved text position is in range. |
| Resolver.ParsePairOfTwoParts | src/core/engine.py:142-146 | "a,b" with no other comma parses to (float(a), float(b)) when both parse and are in range, and to nothing otherwise. |
| Resolver.ResolveNumericPair | src/core/engine.py:138-159 | An in-range "lat,lon" resolves to that pair whatever the geocoder says. An out-of-range one goes to the geocoder. |
| Resolver.NotAPairIsGeocoded | src/core/engine.py:142-159 | A text without exactly one comma always goes to the geocoder. |
| Ranking.Group | src/core/engine.py:231 | The first sort key is 0 exactly for a recommendation without warnings, and 1 otherwise. |
| Ranking.SortByKey | src/core/engine.py:230-233 | Sorting keeps the number of recommendations. |
| Ranking.SortByKeySorted | src/core/engine.py:230-233 | The sorted list is in key order. |
| Ranking.SortByKeyPermutes | src/core/engine.py:230-233 | Sorting is a permutation: nothing is lost or added. |
| Ranking.SortByKeyStable | src/core/engine.py:230-233 | The sort is stable: the recommendations sharing a key keep their input order. |
| Ranking.SortedMeansWarningFreeFirst | src/core/engine.py:229-233 | In a sorted list every warning-free recommendation precedes every one with warnings. Distances do not decrease within each group. |
| Search.CruiseSpeedKts | src/core/engine.py:212-214 | The speed is the category's table entry (120/200/250/280 kt), or 180 kt for an unknown category, so always at least 120 kt. |
| Search.FlightTimeMinutes | src/core/engine.py:216 | A distance of 0 or less gives 0 minutes. Otherwise the result is the whole minutes at that speed, truncated: m ≤ d/v·60 < m+1. |
| Search.RecommendationFor | src/core/engine.py:196-225 | The recommendation built for an airport carries that airport, the calculator's distance and bearing from the origin to it, the matcher's score and messages for it, and the flight time for that distance at the category's speed. |
| Search.RecommendationsFor | src/core/engine.py:195-227 | There is one recommendation per airport, in storage order. |
| Search.BuildRecommendations | src/core/engine.py:193-227 | The loop fails, with the score's division by zero, exactly when the requirement is 0 ft and some airport is nearby. Otherwise it returns one recommendation per airport, in order. |
| Search.SearchAt | src/core/engine.py:181-233 | One pass fails with the resolver's error when the location does not resolve, and with an unknown-type error when a resolved search names a type outside the catalog. It fails on a 0 ft requirement only when the type has one. A successful pass is sorted by (has warnings, distance). |
| Search.Search | src/core/engine.py:174-241 | A failing first pass is the search's outcome. Every successful search returns a list sorted by (has warnings, distance). |
| Search.FindEmergencyAirports | src/core/engine.py:174-245 | For a positive radius the loop returns exactly what the recursive definition `Search` gives. That covers resolution, catalog lookup, building, sorting and radius doubling. A radius of 0 or less is refused with `NonPositiveRadius`. |
| Search.SearchAsWritten | src/core/engine.py:235-241 | The self-call as written, with a bound on the recursion depth. Whatever it returns successfully is sorted. |
| Search.ExpandStuckAtZero | src/core/engine.py:235-241 | For any passes: when the pass at radius 0 has nothing warning-free, the self-call as written returns nothing at any depth, because doubling 0 gives 0. |
| Search.ZeroRadiusNeverReturns | src/core/engine.py:235-241 | From radius 0 with nothing warning-free, the search as written never returns within any depth: every self-call asks for radius 0 again. |
| Search.PassesNeeded | src/core/engine.py:235-241 | The most passes a search from a positive radius can need is at least 1. It is exactly 1 if and only if the radius is at least 200 nm. |
| Search.PassesNeededAtMostNine | src/core/engine.py:235-241 | From a positive radius a search needs at most nine passes, and at most fewer the larger the radius (at most two from 100 nm). |
| Search.ExpandAgrees | src/core/engine.py:235-241 | For any passes and any outcome that follows the doubling policy from a positive radius on (the pass's error, the outcome at twice the radius while nothing is warning-free below 200 nm, or the pass), the self-call as written returns that outcome once the depth covers the passes needed. |
| Search.SearchFollowsPolicy | src/core/engine.py:235-241 | `Search` follows that doubling policy from every positive radius. |
| Search.SearchAsWrittenAgrees | src/core/engine.py:235-241 | From a positive radius, with room for the passes needed, the search as written returns what `Search` returns. |
| Search.SearchAtOnePerAirport | src/core/engine.py:191-233 | One pass returns a reordering of exactly one recommendation per airport storage returned. Equal keys keep the storage order. |
| Search.SearchSettlesAtSomeRadius | src/core/engine.py:235-241 | A search returns the pass at some radius no smaller than the one asked for. From below 200 nm that radius is below 400 nm; from 200 nm or more there is no expansion. |
| Search.SearchExpands | src/core/engine.py:235-241 | With nothing warning-free and a radius below 200 nm, the search equals the search at twice the radius. Otherwise it is the pass itself. |
| Search.ExpandedOnceToTwoHundred | src/core/engine.py:235-241 | With nothing warning-free at 100 nm, a search from 100 nm returns the 200 nm pass. |
| Search.UnknownTypeFailsBeforeQuery | src/core/engine.py:185-191 | An aircraft type missing from the catalog is an error. The outcome does not depend on storage. |
| Search.RecommendationFacts | src/core/engine.py:195-225 | Every recommendation has these properties: no warnings implies compatible; the flight time is the truncated estimate; with valid geometry the bearing is in [0, 360); the score is in [0, 1]. |
| Search.SoftWarningSortsSecond | src/core/engine.py:83-95 | A compatible airport with a weight or surface warning is ranked with the airports that have warnings. |
| Cache.Lookup | src/core/cache.py:21-31 | `get` serves a value exactly when the key is present and now < expiry, and the value is the stored one. |
| Cache.AfterLookup | src/core/cache.py:24-30 | `get` evicts the key only when its entry is stale. It changes nothing else. |
| Cache.LiveEntries | src/core/cache.py:59-70 | Cleanup keeps exactly the live entries, unchanged. |
| Cache.CleanupPartition | src/core/cache.py:59-75 | The kept and removed entries partition the cache, and their counts add up to the size before. |
| Cache.LookupAgreesWithCleanup | src/core/cache.py:26-66 | `get` serves a key exactly when cleanup would keep it. A present key is refused exactly when cleanup would remove it. |
| Cache.InMemoryCache.constructor | src/core/cache.py:15-19 | A new cache is empty and has the given default time-to-live. |
| Cache.InMemoryCache.EffectiveTtl | src/core/cache.py:35 | A missing or zero time-to-live falls back to the default. Any other value is used as given. |
| Cache.InMemoryCache.Get | src/core/cache.py:21-31 | Returns `Lookup` of the old entries. The new entries are `AfterLookup` of them. |
| Cache.InMemoryCache.Set | src/core/cache.py:33-39 | The key maps to (value, now + effective time-to-live). Every other entry is unchanged. |
| Cache.InMemoryCache.Delete | src/core/cache.py:41-47 | Returns whether the key was present. Afterwards it is absent, and nothing else changed. |
| Cache.InMemoryCache.Clear | src/core/cache.py:49-52 | The cache is empty. |
| Cache.InMemoryCache.Size | src/core/cache.py:54-57 | Returns the number of keys held, live or stale. |
| Cache.InMemoryCache.CollectExpired | src/core/cache.py:61-67 | Lists each key whose expiry is reached (now ≥ expiry) exactly once, and no other key. |
| Cache.InMemoryCache.CleanupExpired | src/core/cache.py:59-75 | Removes exactly the stale entries and keeps the live ones as they were. It returns how many went. |
| Cache.CachedCall | src/core/cache.py:88-107 | A live non-`None` cached value is returned without calling the function, and the cache is unchanged. Otherwise the function runs, and its result (`None` included) is stored under the key. |
| Cache.CachedCallTwice | src/core/cache.py:96-107 | For a key the cache does not hold, a second call before expiry returns the first result. The function runs again exactly when that result was `None`. |
| Cache.GeocodingKey | src/core/cache.py:112-114 | A geocoding key starts with "geocode:". |
| Cache.GeocodingKeyInjective | src/core/cache.py:112-114 | Two locations share a geocoding key if and only if they agree once lowered and trimmed. |
| Cache.GeocodingKeyIgnoresCaseAndPadding | src/core/cache.py:112-114 | Locations differing only in case or surrounding whitespace share a geocoding key. |
| Cache.AirportSearchKey | src/core/cache.py:117-120 | A search key starts with "search:". |
| Cache.AirportSearchKeyIgnoresCaseAndPadding | src/core/cache.py:117-120 | Searches whose locations differ only in case or surrounding whitespace share a search key. |
| Cache.AirportSearchKeyCollides | src/core/cache.py:117-120 | Two different searches can share a search key: location "a:b" with type "c", and location "a" with type "b:c". |
| Cache.SearchCacheKey | src/core/cache.py:117-120 | The corrected search key also starts with "search:". |
| Cache.SearchCacheKeyInjective | src/core/cache.py:117-120 | With length-prefixed fields, two searches share a key if and only if they have the same normalised location, type and radius. |
| OurAirports.SafeInt | src/integrations/ourairports_client.py:130-135 | A number is returned only for a present value with some non-whitespace text. |
| OurAirports.SafeIntOfBlank | src/integrations/ourairports_client.py:130-135 | A missing, empty or all-whitespace value gives `None`. |
| OurAirports.SafeIntOfNumeral | src/integrations/ourairports_client.py:130-135 | An unpadded numeral "d" or "d.f", with no sign, a "-" or a "+" in front, gives d with that sign applied. The fraction is truncated toward zero, so "-3.7" gives -3 and "+5" gives 5. |
| OurAirports.SafeIntRejectsForeignChar | src/integrations/ourairports_client.py:130-135 | A value holding any character other than a digit, ".", a sign or whitespace gives `None` (with the numeral grammar of this model, so exponents give `None` too). |
| OurAirports.SafeIntRejectsLateSign | src/integrations/ourairports_client.py:130-135 | A sign anywhere after the first non-whitespace character ("1-2", "--1") gives `None`. |
| OurAirports.SafeIntRejectsSecondPoint | src/integrations/ourairports_client.py:130-135 | A value with two points ("1.2.3") gives `None`. |
| OurAirports.SafeIntIgnoresPadding | src/integrations/ourairports_client.py:130-135 | Whitespace around a value never changes what it reads as. |
| OurAirports.ParseAirportRow | src/integrations/ourairports_client.py:97-128 | A row parses exactly when both coordinates read as numbers and form an in-range position. The airport keeps the identifier and name, has that position, the elevation read by `_safe_int` (or 0), runway placeholders 0, 0 and "unknown", no weight capacity or contact, and `now` as its update time. |
| OurAirports.ParsedAirportsFromSelectedRows | src/integrations/ourairports_client.py:43-58 | Every airport fetched comes from a row of an allowed type, with identifier and coordinates present, that parsed. Every such row gives its airport. |
| OurAirports.ParsedAirports | src/integrations/ourairports_client.py:43-58 | There are never more airports than rows. Each is in range with no runway data yet: length 0 and surface "unknown". |
| OurAirports.FetchAirports | src/integrations/ourairports_client.py:27-61 | The loop returns `ParsedAirports` of the rows, with large, medium and small airports as the default types. Every airport fetched is in range with surface "unknown". |
| OurAirports.SurfaceOrUnknown | src/integrations/ourairports_client.py:86 | An empty surface column reads as "unknown" and any other is kept, so the result is never empty. |
| OurAirports.RunwayOf | src/integrations/ourairports_client.py:83-87 | A runway's length and width are the row's columns read by `_safe_int`. Its surface is the column, or "unknown" when that is empty, so never empty. |
| OurAirports.Grouped | src/integrations/ourairports_client.py:78-88 | Every entry of the grouping lists at least one runway, so the `if runways:` test always passes for fetched data. |
| OurAirports.GroupedByAirport | src/integrations/ourairports_client.py:78-88 | An airport has an entry exactly when some row names it. The entry lists that airport's runways in row order. |
| OurAirports.FetchRunways | src/integrations/ourairports_client.py:67-91 | The loop builds exactly `Grouped` of the rows. |
| OurAirports.LongestIndex | src/integrations/ourairports_client.py:147 | `max` with key length-or-0 picks a runway no shorter than any other. It is the first of the longest. |
| OurAirports.Updated | src/integrations/ourairports_client.py:141-152 | An airport without runway data is unchanged. The identifier, name and position are always kept. |
| OurAirports.UpdatedTakesLongest | src/integrations/ourairports_client.py:141-152 | An airport without runway data is unchanged. One with runway data takes the length, width (or 0) and surface of its first longest runway, and keeps every other field. |
| OurAirports.KeptAirports | src/integrations/ourairports_client.py:141-156 | No more airports come out than go in, and every one returned has a runway over 500 ft. |
| OurAirports.KeptAirportsExactly | src/integrations/ourairports_client.py:141-156 | Exactly the airports with runway data whose longest runway exceeds 500 ft are returned, updated, and nothing else. |
| OurAirports.UpdateAirportsWithRunwayData | src/integrations/ourairports_client.py:137-159 | Every array element is updated in place. The returned list is `KeptAirports` of the old contents, in input order. |

## Left out

- HTTP (`requests`), CSV reading, logging, the lock and threads, and the global cache instances are not modelled. Rows arrive as sequences of records, and each cache operation runs alone.
- `DistanceCalculator`: the haversine and bearing formulas use floating-point trigonometry. They are the collaborators `distanceNm` and `bearingDegrees`; `Search.GeometryValid` states what callers may assume of them.
- Python's `float()` on text is the collaborator `parseFloat`, and the geocoding client (with its cache) is the collaborator `geocode`. `geocoding_client.py` is not part of this model.
- `DatabaseManager`: the aircraft catalog is a map and `get_airports_within_radius` a function parameter. `database.py` is not part of this model.
- Floats are reals. Rounding of the score, of distances and of the `float()` inside `_safe_int` is not modelled.
- `datetime.now()` and `time.time()` are parameters (`now`, in seconds).
- `Strings.Lower` folds ASCII letters only. Python's `str.lower` also folds other scripts.
- `ErrorResponse` is a plain record that no core operation uses; it is left out.
- The default key of `cache_result` (`hash(str(args) + ...)`) is left out. A key is a function parameter, so the wrapper is modelled for any key builder.
- `Cache.AirportSearchKey` takes `str(location)` as text. `str` of a `Coordinates` value is not modelled.
- `Cache.InMemoryCache.Set` and `Cache.InMemoryCache.Get` read one clock value `now` per call; `CachedCall` passes the same `now` to both.
- `OurAirports.SafeIntOfNumeral`: only the `[sign] digits [. digits]` grammar of `float()` is modelled. Exponents, `inf`, `nan`, underscores and non-ASCII digits (Python's `float()` accepts any Unicode decimal digit, for example Arabic-Indic ones) read as `None`. A leading "+" and a bare fraction such as ".5" are accepted as in Python.
- `OurAirports.SafeInt`: in Python, `int(float(s))` raises `OverflowError` for "inf" or a numeral whose exponent overflows, and `_safe_int` does not catch it. In `fetch_runways` the error ends the loop and the function returns `{}`; in `_parse_airport_row` it drops the row. The model reads such values as `None` instead.
- `Search.FlightTimeMinutes` truncates, as the code does (`int(...)`), not rounds.
- `Search.Search` requires a positive radius. With a radius of 0 or less and nothing warning-free, the source calls itself with the doubled radius, which stays at 0 or below and never reaches 200, until Python raises `RecursionError`, which the handler logs and re-raises (see Findings).
- Default arguments are left out: `max_distance_nm=100` of `find_emergency_airports` and `default_ttl=300` of `InMemoryCache`. The model always passes the radius and the time-to-live explicitly.
- `Search.BuildRecommendations`: a 0 ft requirement, which makes the score divide by zero, is the error `ZeroRunwayRequirement`. The catalog's own data is not modelled.
- `Search.FindEmergencyAirports`: the recursive self-call is a loop over the radius. Each pass resolves the location again, as the recursive call does.
- `Search.FindEmergencyAirports` refuses a radius of 0 or less before any pass. The source runs a first pass and returns it when it has a warning-free airport; only otherwise does it recurse without end (see Findings).
- `OurAirports.UpdateAirportsWithRunwayData` works on an array of airport values. Python shares each airport object between the input and the returned list; this aliasing is not modelled.
- `fetch_airports` and `fetch_runways` return an empty result when the download fails. The download is not modelled, so that path is left out.

## Findings

| source | as written | input that shows it | evidently intended | confidence | as-written member | corrected member |
|---|---|---|---|---|---|---|
| src/core/engine.py:235-241 | The radius is doubled while it is below 200 nm, but doubling a radius of 0 or less never reaches 200. | `max_distance_nm=0` with no warning-free airport (for example none in storage): every self-call asks for radius 0 again until `RecursionError`. | The search settles within a bounded number of passes (at most nine from a positive radius). | not executed | Search.ZeroRadiusNeverReturns | Search.FindEmergencyAirports |
| src/core/cache.py:117-120 | The search key joins the location, type and radius with ":" unescaped. | Location "a:b" with type "c", and location "a" with type "b:c", same radius: with radius 100 both keys are "search:a:b:c:100". | Different searches get different keys, so a cached result is never served for another request. | not executed | Cache.AirportSearchKeyCollides | Cache.SearchCacheKeyInjective |
