/**
 * `OurAirportsClient` without its HTTP and CSV reading: the airport-row
 * filter, the grouping of runway rows by airport, `_safe_int`, and the
 * merge that gives each airport its longest runway.
 */
module OurAirports {
  import opened Wrappers
  import opened Strings
  import opened Models

  // ---- _safe_int ----

  /**
   * `int(float(u))` for an unsigned text `u` of the form digits [. digits]
   * with at least one digit: the whole part, the fraction being dropped.
   * Any other text is `None`.
   */
  function ParseUnsigned(u: string): (r: Option<nat>)
  {
    var point := FirstIndex(u, '.');
    var whole := if point < |u| then u[..point] else u;
    var fraction := if point < |u| then u[point + 1..] else "";
    if AllDigits(whole) && AllDigits(fraction) && |whole| + |fraction| > 0 then Some(DigitsValue(whole))
    else None
  }

  /** An optional leading sign: whether it is a minus, and the text after it. */
  function SplitSign(t: string): (r: (bool, string))
    ensures r.1 == t || (t != [] && r.1 == t[1..])
  {
    if t != [] && t[0] == '-' then (true, t[1..])
    else if t != [] && t[0] == '+' then (false, t[1..])
    else (false, t)
  }

  /**
   * `int(float(t))` for a trimmed text `t`: an optional sign before an
   * unsigned decimal; the value is truncated toward zero.
   */
  function ParseDecimal(t: string): (r: Option<int>)
  {
    var (negative, u) := SplitSign(t);
    match ParseUnsigned(u)
    case Some(n) => Some(if negative then -(n as int) else n as int)
    case None => None
  }

  /** `_safe_int`: `None` for a missing, empty or blank value, else the number it reads as (or `None`). */
  function SafeInt(value: Option<string>): (r: Option<int>)
    ensures r.Some? ==> value.Some? && Strip(value.value) != []
  {
    if value.None? || value.value == "" then None
    else
      var t := Strip(value.value);
      if t == [] then None else ParseDecimal(t)
  }

  /** A missing value, or one that is empty or only whitespace, gives `None`. */
  lemma SafeIntOfBlank(value: Option<string>)
    requires value.None? || AllSpace(value.value)
    ensures SafeInt(value) == None
  {
    if value.Some? && value.value != "" {
      AllSpaceTrimsToEmpty(value.value);
    }
  }

  lemma {:induction false} FirstIndexAbsent(s: string, c: char)
    requires c !in s
    ensures FirstIndex(s, c) == |s|
  {
    if s != [] {
      FirstIndexAbsent(s[1..], c);
    }
  }

  lemma {:induction false} FirstIndexOfPoint(whole: string, fraction: string)
    requires '.' !in whole
    ensures FirstIndex(whole + "." + fraction, '.') == |whole|
  {
    assert whole + "." + fraction == whole + ['.'] + fraction;
    FirstIndexAfter(whole, fraction, '.');
  }

  /** Digits, with or without a fraction after a point, read as the value of the digits before the point. */
  lemma ParseUnsignedOfDigits(whole: string, fraction: string)
    requires whole != [] && AllDigits(whole) && AllDigits(fraction)
    ensures ParseUnsigned(whole) == Some(DigitsValue(whole))
    ensures ParseUnsigned(whole + "." + fraction) == Some(DigitsValue(whole))
  {
    assert '.' !in whole;
    FirstIndexAbsent(whole, '.');
    FirstIndexOfPoint(whole, fraction);
    var u := whole + "." + fraction;
    assert u[..|whole|] == whole;
    assert u[|whole| + 1..] == fraction;
  }

  /** A text that is already trimmed and not empty is parsed as it stands. */
  lemma SafeIntOfParsed(t: string, v: int)
    requires t != [] && Strip(t) == t && ParseDecimal(t) == Some(v)
    ensures SafeInt(Some(t)) == Some(v)
  {
  }

  /** `+` or `-`. */
  predicate IsSign(c: char) {
    c == '-' || c == '+'
  }

  /** A character that can appear in a text `float()` reads in the modelled grammar. */
  predicate NumeralChar(c: char) {
    IsDigit(c) || c == '.' || IsSign(c) || IsSpace(c)
  }

  /** An unsigned text holding a character other than a digit or the point is rejected. */
  lemma ParseUnsignedRejects(u: string, q: nat)
    requires q < |u| && !IsDigit(u[q]) && u[q] != '.'
    ensures ParseUnsigned(u) == None
  {
    var point := FirstIndex(u, '.');
    FirstIndexHit(u, '.');
    if point < |u| {
      if q < point {
        assert u[..point][q] == u[q];
      } else {
        assert u[point + 1..][q - point - 1] == u[q];
      }
    }
  }

  /**
   * A value holding a character outside digits, point, signs and
   * whitespace gives `None`: such text is caught as a `ValueError`.
   */
  lemma SafeIntRejectsForeignChar(s: string, i: nat)
    requires i < |s| && !NumeralChar(s[i])
    ensures SafeInt(Some(s)) == None
  {
    var p := StripKeepsText(s, i);
    ParseDecimalRejects(Strip(s), p);
  }

  /**
   * A sign anywhere but at the start of the trimmed text ("1-2", "--1",
   * "5 +") gives `None`.
   */
  lemma SafeIntRejectsLateSign(s: string, j: nat, i: nat)
    requires j < i < |s| && !IsSpace(s[j]) && IsSign(s[i])
    ensures SafeInt(Some(s)) == None
  {
    var q := StripKeepsText(s, j);
    var p := StripKeepsText(s, i);
    ParseDecimalRejects(Strip(s), p);
  }

  /** A second point ("1.2.3", "..5") gives `None`. */
  lemma SafeIntRejectsSecondPoint(s: string, j: nat, i: nat)
    requires j < i < |s| && s[j] == '.' && s[i] == '.'
    ensures SafeInt(Some(s)) == None
  {
    var q := StripKeepsText(s, j);
    var p := StripKeepsText(s, i);
    ParseDecimalRejectsSecondPoint(Strip(s), q, p);
  }

  /** A trimmed text with two points is rejected, signed or not. */
  lemma ParseDecimalRejectsSecondPoint(t: string, q: nat, p: nat)
    requires q < p < |t| && t[q] == '.' && t[p] == '.'
    ensures ParseDecimal(t) == None
  {
    var (negative, u) := SplitSign(t);
    if u == t {
      ParseUnsignedRejectsSecondPoint(u, q, p);
    } else {
      assert u[q - 1] == t[q] && u[p - 1] == t[p];
      ParseUnsignedRejectsSecondPoint(u, q - 1, p - 1);
    }
  }

  /** An unsigned text with two points is rejected: the second lies in the fraction. */
  lemma ParseUnsignedRejectsSecondPoint(u: string, q: nat, p: nat)
    requires q < p < |u| && u[q] == '.' && u[p] == '.'
    ensures ParseUnsigned(u) == None
  {
    var point := FirstIndex(u, '.');
    FirstIndexFirst(u, '.', q);
    assert u[point + 1..][p - point - 1] == u[p];
  }

  /**
   * A trimmed text holding, anywhere but where a sign may open it, a
   * character that is neither a digit nor the point is rejected.
   */
  lemma ParseDecimalRejects(t: string, p: nat)
    requires p < |t| && !IsDigit(t[p]) && t[p] != '.' && (IsSign(t[p]) ==> p > 0)
    ensures ParseDecimal(t) == None
  {
    var (negative, u) := SplitSign(t);
    if u == t {
      ParseUnsignedRejects(u, p);
    } else {
      assert u[p - 1] == t[p];
      ParseUnsignedRejects(u, p - 1);
    }
  }

  /** Whitespace around the value never changes what `_safe_int` returns. */
  lemma SafeIntIgnoresPadding(w1: string, n: string, w2: string)
    requires AllSpace(w1) && AllSpace(w2)
    ensures SafeInt(Some(w1 + n + w2)) == SafeInt(Some(n))
  {
    StripPadded(w1, n, w2);
  }

  /** The sign written before a numeral: none, a minus or a plus. */
  datatype Sign = NoSign | Minus | Plus

  /** `u` with the sign's character in front. */
  function Signed(sign: Sign, u: string): (t: string)
    ensures |t| == |u| + (if sign == NoSign then 0 else 1)
  {
    match sign
    case NoSign => u
    case Minus => ['-'] + u
    case Plus => ['+'] + u
  }

  /** `m` with the sign applied: only a minus negates. */
  function Apply(sign: Sign, m: nat): (v: int)
    ensures sign == Minus ==> v == -(m as int)
    ensures sign != Minus ==> v == m as int
  {
    if sign == Minus then -(m as int) else m as int
  }

  lemma SplitSignOf(sign: Sign, u: string)
    requires u != [] && IsDigit(u[0])
    ensures SplitSign(Signed(sign, u)) == (sign == Minus, u)
  {
    var t := Signed(sign, u);
    if sign == NoSign {
      assert t == u;
    } else {
      assert t[1..] == u;
    }
  }

  /** A numeral starting with a digit, with any sign in front, is read with that sign applied. */
  lemma SafeIntOfSigned(sign: Sign, u: string, m: nat)
    requires u != [] && IsDigit(u[0]) && !IsSpace(u[|u| - 1]) && ParseUnsigned(u) == Some(m)
    ensures SafeInt(Some(Signed(sign, u))) == Some(Apply(sign, m))
  {
    var t := Signed(sign, u);
    assert t[|t| - 1] == u[|u| - 1];
    assert t[0] == match sign case NoSign => u[0] case Minus => '-' case Plus => '+';
    StripUnpadded(t);
    SplitSignOf(sign, u);
    SafeIntOfParsed(t, Apply(sign, m));
  }

  lemma SafeIntOfWhole(sign: Sign, whole: string, value: nat)
    requires whole != [] && AllDigits(whole) && value == DigitsValue(whole)
    ensures SafeInt(Some(Signed(sign, whole))) == Some(Apply(sign, value))
  {
    ParseUnsignedOfDigits(whole, []);
    assert IsDigit(whole[|whole| - 1]);
    SafeIntOfSigned(sign, whole, value);
  }

  lemma SafeIntOfFraction(sign: Sign, whole: string, fraction: string, value: nat)
    requires whole != [] && AllDigits(whole) && AllDigits(fraction) && value == DigitsValue(whole)
    ensures SafeInt(Some(Signed(sign, whole + "." + fraction))) == Some(Apply(sign, value))
  {
    ParseUnsignedOfDigits(whole, fraction);
    var u := whole + "." + fraction;
    assert u[0] == whole[0];
    assert u[|u| - 1] == if fraction == [] then '.' else fraction[|fraction| - 1];
    SafeIntOfSigned(sign, u, value);
  }

  /**
   * `_safe_int` reads a numeral (an optional "-" or "+", digits, an
   * optional fraction) as the value of its digits before the point, with
   * the sign applied: the fraction is truncated toward zero, so "-3.7"
   * gives -3, not the floor -4, and "+5" gives 5.
   */
  lemma SafeIntOfNumeral(sign: Sign, whole: string, fraction: string, value: nat)
    requires whole != [] && AllDigits(whole) && AllDigits(fraction) && value == DigitsValue(whole)
    ensures SafeInt(Some(Signed(sign, whole))) == Some(Apply(sign, value))
    ensures SafeInt(Some(Signed(sign, whole + "." + fraction))) == Some(Apply(sign, value))
  {
    SafeIntOfWhole(sign, whole, value);
    SafeIntOfFraction(sign, whole, fraction, value);
  }

  // ---- the airport rows ----

  /** The columns of `airports.csv` the client reads. */
  datatype AirportRow = AirportRow(
    kind: string, ident: string, name: string, latitudeDeg: string, longitudeDeg: string, elevationFt: string)

  /** The airport types fetched when the caller names none. */
  const DefaultAirportTypes: seq<string> := ["large_airport", "medium_airport", "small_airport"]

  /** The filter of `fetch_airports`: an allowed type, and an identifier and both coordinates present. */
  predicate RowSelected(row: AirportRow, airportTypes: seq<string>) {
    row.kind in airportTypes && row.ident != "" && row.latitudeDeg != "" && row.longitudeDeg != ""
  }

  /**
   * `_parse_airport_row`: a placeholder airport (no runway yet, surface
   * "unknown") at the parsed position, or `None` when a coordinate does not
   * parse or is out of range. `now` is `datetime.now()`.
   */
  function ParseAirportRow(row: AirportRow, parseFloat: string -> Option<real>, now: real): (a: Option<Airport>)
    ensures a.Some? <==> && parseFloat(row.latitudeDeg).Some? && parseFloat(row.longitudeDeg).Some?
                         && MakeCoordinates(parseFloat(row.latitudeDeg).value, parseFloat(row.longitudeDeg).value).Ok?
    ensures a.Some? ==> && a.value.icaoCode == row.ident && a.value.name == row.name
                        && a.value.coordinates == Coordinates(parseFloat(row.latitudeDeg).value, parseFloat(row.longitudeDeg).value)
                        && a.value.coordinates.Valid()
                        && a.value.elevationFt == (match SafeInt(Some(row.elevationFt)) case Some(e) => e case None => 0)
                        && a.value.longestRunwayFt == 0 && a.value.runwayWidthFt == 0
                        && a.value.surfaceType == "unknown"
                        && a.value.weightCapacityLbs == None && a.value.contactInfo == None
                        && a.value.lastUpdated == Some(now)
  {
    match (parseFloat(row.latitudeDeg), parseFloat(row.longitudeDeg))
    case (Some(lat), Some(lon)) =>
      (match MakeCoordinates(lat, lon)
       case Ok(coordinates) =>
         var elevation := match SafeInt(Some(row.elevationFt)) case Some(e) => e case None => 0;
         Some(Airport(row.ident, row.name, coordinates, elevation, 0, 0, "unknown", None, None, Some(now)))
       case Err(_) => None)
    case _ => None
  }

  /** The airports `fetch_airports` builds from the rows, in row order. */
  function ParsedAirports(rows: seq<AirportRow>, airportTypes: seq<string>, parseFloat: string -> Option<real>,
                          now: real): (airports: seq<Airport>)
    ensures |airports| <= |rows|
    ensures forall i :: 0 <= i < |airports| ==>
              && airports[i].coordinates.Valid() && airports[i].surfaceType == "unknown"
              && airports[i].longestRunwayFt == 0
  {
    if rows == [] then []
    else
      var last := rows[|rows| - 1];
      ParsedAirports(rows[..|rows| - 1], airportTypes, parseFloat, now)
        + (if RowSelected(last, airportTypes) && ParseAirportRow(last, parseFloat, now).Some?
           then [ParseAirportRow(last, parseFloat, now).value] else [])
  }

  /**
   * Every airport fetched comes from a selected row that parsed, and every
   * selected row that parses gives an airport.
   */
  lemma {:induction false} ParsedAirportsFromSelectedRows(rows: seq<AirportRow>, airportTypes: seq<string>,
                                                          parseFloat: string -> Option<real>, now: real)
    ensures var airports := ParsedAirports(rows, airportTypes, parseFloat, now);
            && |airports| <= |rows|
            && (forall a :: a in airports ==>
                  exists i :: 0 <= i < |rows| && RowSelected(rows[i], airportTypes)
                              && ParseAirportRow(rows[i], parseFloat, now) == Some(a))
            && (forall i :: 0 <= i < |rows| && RowSelected(rows[i], airportTypes)
                            && ParseAirportRow(rows[i], parseFloat, now).Some? ==>
                  ParseAirportRow(rows[i], parseFloat, now).value in airports)
  {
    if rows != [] {
      var init, last := rows[..|rows| - 1], rows[|rows| - 1];
      ParsedAirportsFromSelectedRows(init, airportTypes, parseFloat, now);
      var airports := ParsedAirports(rows, airportTypes, parseFloat, now);
      forall a | a in airports
        ensures exists i :: 0 <= i < |rows| && RowSelected(rows[i], airportTypes)
                            && ParseAirportRow(rows[i], parseFloat, now) == Some(a)
      {
        if a in ParsedAirports(init, airportTypes, parseFloat, now) {
          var i :| 0 <= i < |init| && RowSelected(init[i], airportTypes)
                   && ParseAirportRow(init[i], parseFloat, now) == Some(a);
          assert rows[i] == init[i];
        } else {
          assert rows[|rows| - 1] == last;
        }
      }
      forall i | 0 <= i < |rows| && RowSelected(rows[i], airportTypes) && ParseAirportRow(rows[i], parseFloat, now).Some?
        ensures ParseAirportRow(rows[i], parseFloat, now).value in airports
      {
        if i < |rows| - 1 {
          assert rows[i] == init[i];
        }
      }
    }
  }

  /**
   * The loop of `fetch_airports` over the CSV rows; `airportTypes` is the
   * optional argument, defaulting to large, medium and small airports.
   */
  method FetchAirports(rows: seq<AirportRow>, airportTypes: Option<seq<string>>, parseFloat: string -> Option<real>,
                       now: real)
    returns (airports: seq<Airport>)
    ensures airports == ParsedAirports(rows, if airportTypes.None? then DefaultAirportTypes else airportTypes.value, parseFloat, now)
    ensures forall a :: a in airports ==> a.coordinates.Valid() && a.surfaceType == "unknown"
  {
    var types := if airportTypes.None? then DefaultAirportTypes else airportTypes.value;
    airports := [];
    for i := 0 to |rows|
      invariant airports == ParsedAirports(rows[..i], types, parseFloat, now)
    {
      assert rows[..i + 1][..i] == rows[..i];
      var row := rows[i];
      if row.kind !in types {
        continue;
      }
      if row.ident == "" || row.latitudeDeg == "" || row.longitudeDeg == "" {
        continue;
      }
      var airport := ParseAirportRow(row, parseFloat, now);
      if airport.Some? {
        airports := airports + [airport.value];
      }
    }
    assert rows[..|rows|] == rows;
    ParsedAirportsFromSelectedRows(rows, types, parseFloat, now);
  }

  // ---- the runway rows ----

  /** The columns of `runways.csv` the client reads. */
  datatype RunwayRow = RunwayRow(airportIdent: string, lengthFt: string, widthFt: string, surface: string)

  /** `runway_info`: length and width as `_safe_int` reads them, and a surface. */
  datatype Runway = Runway(lengthFt: Option<int>, widthFt: Option<int>, surface: string)

  /** `surface or 'unknown'`: an empty surface becomes "unknown", any other is kept. */
  function SurfaceOrUnknown(surface: string): (s: string)
    ensures s != ""
    ensures surface != "" ==> s == surface
    ensures surface == "" ==> s == "unknown"
  {
    if surface == "" then "unknown" else surface
  }

  /** `runway_info` for one row: both sizes read by `_safe_int`, the surface defaulted. */
  function RunwayOf(row: RunwayRow): (r: Runway)
    ensures r.lengthFt == SafeInt(Some(row.lengthFt)) && r.widthFt == SafeInt(Some(row.widthFt))
    ensures r.surface == SurfaceOrUnknown(row.surface) && r.surface != ""
  {
    Runway(SafeInt(Some(row.lengthFt)), SafeInt(Some(row.widthFt)), SurfaceOrUnknown(row.surface))
  }

  /** The runways of the rows for airport `ident`, in row order. */
  function RunwaysOf(rows: seq<RunwayRow>, ident: string): (rs: seq<Runway>)
    ensures |rs| <= |rows|
  {
    if rows == [] then []
    else
      var last := rows[|rows| - 1];
      RunwaysOf(rows[..|rows| - 1], ident) + (if last.airportIdent == ident then [RunwayOf(last)] else [])
  }

  /** The dictionary `fetch_runways` has built after the given rows. */
  function Grouped(rows: seq<RunwayRow>): (m: map<string, seq<Runway>>)
    ensures forall ident :: ident in m ==> m[ident] != []
  {
    if rows == [] then map[]
    else
      var m := Grouped(rows[..|rows| - 1]);
      var last := rows[|rows| - 1];
      var previous := if last.airportIdent in m then m[last.airportIdent] else [];
      m[last.airportIdent := previous + [RunwayOf(last)]]
  }

  /**
   * The grouping is exact: an airport has an entry exactly when some row
   * names it, and its list holds the runways of those rows, in row order.
   */
  lemma {:induction false} GroupedByAirport(rows: seq<RunwayRow>, ident: string)
    ensures ident in Grouped(rows) <==> exists i :: 0 <= i < |rows| && rows[i].airportIdent == ident
    ensures ident in Grouped(rows) ==> Grouped(rows)[ident] == RunwaysOf(rows, ident)
    ensures ident !in Grouped(rows) ==> RunwaysOf(rows, ident) == []
  {
    if rows != [] {
      var init := rows[..|rows| - 1];
      GroupedByAirport(init, ident);
      if exists i :: 0 <= i < |init| && init[i].airportIdent == ident {
        var i :| 0 <= i < |init| && init[i].airportIdent == ident;
        assert rows[i] == init[i];
      }
      if exists i :: 0 <= i < |rows| && rows[i].airportIdent == ident {
        var i :| 0 <= i < |rows| && rows[i].airportIdent == ident;
        if i < |rows| - 1 {
          assert init[i] == rows[i];
        }
      }
    }
  }

  /** One more row appends its runway to its airport's list, creating the list if needed. */
  lemma GroupedStep(rows: seq<RunwayRow>, i: nat)
    requires i < |rows|
    ensures var m := Grouped(rows[..i]);
            var ident := rows[i].airportIdent;
            Grouped(rows[..i + 1]) == m[ident := (if ident in m then m[ident] else []) + [RunwayOf(rows[i])]]
  {
    assert rows[..i + 1][..i] == rows[..i];
    assert rows[..i + 1][i] == rows[i];
  }

  /** Inserting a default before overwriting a key changes nothing. */
  lemma DefaultThenOverwrite<K, V>(m: map<K, V>, k: K, d: V, v: V)
    ensures (if k in m then m else m[k := d])[k := v] == m[k := v]
  {
  }

  /** The loop of `fetch_runways`: each row's runway appended to its airport's list. */
  method FetchRunways(rows: seq<RunwayRow>) returns (runwaysByAirport: map<string, seq<Runway>>)
    ensures runwaysByAirport == Grouped(rows)
  {
    runwaysByAirport := map[];
    for i := 0 to |rows|
      invariant runwaysByAirport == Grouped(rows[..i])
    {
      GroupedStep(rows, i);
      ghost var before := runwaysByAirport;
      var airportIdent := rows[i].airportIdent;
      if airportIdent !in runwaysByAirport {
        runwaysByAirport := runwaysByAirport[airportIdent := []];
      }
      ghost var previous := if airportIdent in before then before[airportIdent] else [];
      assert runwaysByAirport[airportIdent] == previous;
      var runwayInfo := RunwayOf(rows[i]);
      DefaultThenOverwrite(before, airportIdent, [], previous + [runwayInfo]);
      runwaysByAirport := runwaysByAirport[airportIdent := runwaysByAirport[airportIdent] + [runwayInfo]];
    }
    assert rows[..|rows|] == rows;
  }

  // ---- the merge ----

  /** `r['length_ft'] or 0`. */
  function LengthOrZero(r: Runway): int {
    match r.lengthFt case Some(n) => n case None => 0
  }

  /**
   * `max(runways, key=lambda r: r['length_ft'] or 0)`: the index of the
   * longest runway, the first one when several are longest.
   */
  function LongestIndex(rs: seq<Runway>): (k: nat)
    requires rs != []
    ensures k < |rs|
    ensures forall j :: 0 <= j < |rs| ==> LengthOrZero(rs[j]) <= LengthOrZero(rs[k])
    ensures forall j :: 0 <= j < k ==> LengthOrZero(rs[j]) < LengthOrZero(rs[k])
  {
    if |rs| == 1 then 0
    else
      var k := LongestIndex(rs[..|rs| - 1]);
      assert forall j :: 0 <= j < |rs| - 1 ==> rs[..|rs| - 1][j] == rs[j];
      if LengthOrZero(rs[|rs| - 1]) > LengthOrZero(rs[k]) then |rs| - 1 else k
  }

  /** The airport with the given runway's length, width (missing as 0) and surface (empty as "unknown"). */
  function WithRunway(a: Airport, r: Runway): Airport {
    a.(longestRunwayFt := LengthOrZero(r),
       runwayWidthFt := match r.widthFt case Some(w) => w case None => 0,
       surfaceType := SurfaceOrUnknown(r.surface))
  }

  /** An airport with at least one runway in the data. */
  predicate HasRunways(a: Airport, runwaysData: map<string, seq<Runway>>) {
    a.icaoCode in runwaysData && runwaysData[a.icaoCode] != []
  }

  /** The airport after the loop body: given its longest runway when it has runways, else untouched. */
  function Updated(a: Airport, runwaysData: map<string, seq<Runway>>): (b: Airport)
    ensures !HasRunways(a, runwaysData) ==> b == a
    ensures b.icaoCode == a.icaoCode && b.name == a.name && b.coordinates == a.coordinates
  {
    if HasRunways(a, runwaysData) then
      var rs := runwaysData[a.icaoCode];
      WithRunway(a, rs[LongestIndex(rs)])
    else a
  }

  /**
   * An airport without runway data is left as it is. One with runway data
   * takes the length, width and surface of its first longest runway, and
   * keeps every other field.
   */
  lemma UpdatedTakesLongest(a: Airport, runwaysData: map<string, seq<Runway>>)
    ensures var b := Updated(a, runwaysData);
            && (!HasRunways(a, runwaysData) ==> b == a)
            && (HasRunways(a, runwaysData) ==>
                  var rs := runwaysData[a.icaoCode];
                  && (exists k :: 0 <= k < |rs| && (forall j :: 0 <= j < k ==> LengthOrZero(rs[j]) < LengthOrZero(rs[k]))
                                 && b.longestRunwayFt == LengthOrZero(rs[k])
                                 && b.runwayWidthFt == (match rs[k].widthFt case Some(w) => w case None => 0)
                                 && b.surfaceType == SurfaceOrUnknown(rs[k].surface))
                  && (forall j :: 0 <= j < |rs| ==> LengthOrZero(rs[j]) <= b.longestRunwayFt)
                  && b.(longestRunwayFt := a.longestRunwayFt, runwayWidthFt := a.runwayWidthFt,
                        surfaceType := a.surfaceType) == a)
  {
    if HasRunways(a, runwaysData) {
      var rs := runwaysData[a.icaoCode];
      var k := LongestIndex(rs);
      assert 0 <= k < |rs| && forall j :: 0 <= j < k ==> LengthOrZero(rs[j]) < LengthOrZero(rs[k]);
    }
  }

  /** The airports kept: with runway data, and a longest runway over 500 ft. */
  predicate Kept(a: Airport, runwaysData: map<string, seq<Runway>>) {
    HasRunways(a, runwaysData) && Updated(a, runwaysData).longestRunwayFt > 500
  }

  /** The list `update_airports_with_runway_data` returns, in input order. */
  function KeptAirports(airports: seq<Airport>, runwaysData: map<string, seq<Runway>>): (kept: seq<Airport>)
    ensures |kept| <= |airports|
    ensures forall i :: 0 <= i < |kept| ==> kept[i].longestRunwayFt > 500
  {
    if airports == [] then []
    else
      var last := airports[|airports| - 1];
      KeptAirports(airports[..|airports| - 1], runwaysData)
        + (if Kept(last, runwaysData) then [Updated(last, runwaysData)] else [])
  }

  /**
   * Exactly the airports with runway data whose longest runway exceeds
   * 500 ft are returned, updated, and nothing else.
   */
  lemma {:induction false} KeptAirportsExactly(airports: seq<Airport>, runwaysData: map<string, seq<Runway>>)
    ensures var kept := KeptAirports(airports, runwaysData);
            && |kept| <= |airports|
            && (forall b :: b in kept ==> b.longestRunwayFt > 500 && b.icaoCode in runwaysData
                                          && exists i :: 0 <= i < |airports| && Kept(airports[i], runwaysData)
                                                         && b == Updated(airports[i], runwaysData))
            && (forall i :: 0 <= i < |airports| && Kept(airports[i], runwaysData) ==>
                              Updated(airports[i], runwaysData) in kept)
  {
    if airports != [] {
      var init := airports[..|airports| - 1];
      KeptAirportsExactly(init, runwaysData);
      var kept := KeptAirports(airports, runwaysData);
      forall b | b in kept
        ensures b.longestRunwayFt > 500 && b.icaoCode in runwaysData
        ensures exists i :: 0 <= i < |airports| && Kept(airports[i], runwaysData) && b == Updated(airports[i], runwaysData)
      {
        if b in KeptAirports(init, runwaysData) {
          var i :| 0 <= i < |init| && Kept(init[i], runwaysData) && b == Updated(init[i], runwaysData);
          assert airports[i] == init[i];
        } else {
          var i := |airports| - 1;
          assert Kept(airports[i], runwaysData) && b == Updated(airports[i], runwaysData);
        }
      }
      forall i | 0 <= i < |airports| && Kept(airports[i], runwaysData)
        ensures Updated(airports[i], runwaysData) in kept
      {
        if i < |airports| - 1 {
          assert airports[i] == init[i];
        }
      }
    }
  }

  /** One more airport is appended, updated, exactly when it is kept. */
  lemma KeptAirportsStep(airports: seq<Airport>, i: nat, runwaysData: map<string, seq<Runway>>)
    requires i < |airports|
    ensures KeptAirports(airports[..i + 1], runwaysData)
              == KeptAirports(airports[..i], runwaysData)
                 + (if Kept(airports[i], runwaysData) then [Updated(airports[i], runwaysData)] else [])
  {
    assert airports[..i + 1][..i] == airports[..i];
    assert airports[..i + 1][i] == airports[i];
  }

  /**
   * The loop body of `update_airports_with_runway_data` for the airport at
   * `i`: when it has runway data, its runway fields are overwritten from its
   * longest runway; the result says whether it then passes the 500 ft filter.
   */
  method UpdateAirportAt(airports: array<Airport>, i: nat, runwaysData: map<string, seq<Runway>>)
    returns (kept: bool)
    requires i < airports.Length
    modifies airports
    ensures airports[..] == old(airports[..])[i := Updated(old(airports[i]), runwaysData)]
    ensures kept == Kept(old(airports[i]), runwaysData)
  {
    var airport := airports[i];
    kept := false;
    if airport.icaoCode in runwaysData {
      var runways := runwaysData[airport.icaoCode];
      if runways != [] {
        var longest := runways[LongestIndex(runways)];
        airport := airport.(longestRunwayFt := LengthOrZero(longest));
        airport := airport.(runwayWidthFt := match longest.widthFt case Some(w) => w case None => 0);
        airport := airport.(surfaceType := if longest.surface == "" then "unknown" else longest.surface);
        assert airport == WithRunway(old(airports[i]), longest);
        airports[i] := airport;
        kept := airport.longestRunwayFt > 500;
      }
    }
  }

  /**
   * `update_airports_with_runway_data`. The list holds the callers'
   * airports, updated in place: every airport with runway data is updated,
   * including those then left out by the 500 ft filter.
   */
  method UpdateAirportsWithRunwayData(airports: array<Airport>, runwaysData: map<string, seq<Runway>>)
    returns (updatedAirports: seq<Airport>)
    modifies airports
    ensures forall i :: 0 <= i < airports.Length ==> airports[i] == Updated(old(airports[i]), runwaysData)
    ensures updatedAirports == KeptAirports(old(airports[..]), runwaysData)
  {
    ghost var original := airports[..];
    updatedAirports := [];
    for i := 0 to airports.Length
      invariant forall j :: 0 <= j < i ==> airports[j] == Updated(original[j], runwaysData)
      invariant forall j :: i <= j < airports.Length ==> airports[j] == original[j]
      invariant updatedAirports == KeptAirports(original[..i], runwaysData)
    {
      KeptAirportsStep(original, i, runwaysData);
      var kept := UpdateAirportAt(airports, i, runwaysData);
      if kept {
        updatedAirports := updatedAirports + [airports[i]];
      }
    }
    assert original[..airports.Length] == original;
  }
}
