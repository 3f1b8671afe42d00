/**
 * `AirportMatcher`: whether one airport can take one aircraft (hard runway
 * length and width checks, soft weight and surface checks) and a continuous
 * compatibility score.
 */
module Matcher {
  import opened Wrappers
  import opened Strings
  import opened Models

  /** Tolerance, in feet, allowed on the required runway width. */
  const WidthToleranceFt := 5

  /** The four checks, in the order they are made; the first two are hard. */
  datatype Warning =
    | RunwayTooShort(runwayFt: int, requiredFt: int)
    | RunwayTooNarrow(widthFt: int, requiredFt: int)
    | WeightExceeded(aircraftLbs: int, capacityLbs: int)
    | SoftSurface(surface: string, category: string)
  {
    /** Position of this check in the sequence of checks. */
    function Rank(): nat {
      match this
      case RunwayTooShort(_, _) => 0
      case RunwayTooNarrow(_, _) => 1
      case WeightExceeded(_, _) => 2
      case SoftSurface(_, _) => 3
    }

    /** A failed hard check makes the airport incompatible. */
    predicate IsHard() {
      RunwayTooShort? || RunwayTooNarrow?
    }
  }

  /** The text the source puts in the warning list for a warning. */
  function Message(w: Warning): (m: string)
    ensures w.RunwayTooShort? ==> StartsWith(m, "Runway too short: ")
    ensures w.RunwayTooNarrow? ==> StartsWith(m, "Runway too narrow: ")
    ensures w.WeightExceeded? ==> StartsWith(m, "Weight capacity may be exceeded: ")
    ensures w.SoftSurface? ==> StartsWith(m, "Soft surface (")
  {
    match w
    case RunwayTooShort(have, need) =>
      "Runway too short: " + IntToString(have) + "ft < " + IntToString(need) + "ft required"
    case RunwayTooNarrow(have, need) =>
      "Runway too narrow: " + IntToString(have) + "ft < " + IntToString(need) + "ft required"
    case WeightExceeded(lbs, cap) =>
      "Weight capacity may be exceeded: " + IntToString(lbs) + "lbs > " + IntToString(cap) + "lbs"
    case SoftSurface(surface, category) =>
      "Soft surface (" + surface + ") may not be suitable for " + category + " aircraft"
  }

  function Messages(ws: seq<Warning>): (ms: seq<string>)
    ensures |ms| == |ws|
    ensures forall i :: 0 <= i < |ws| ==> ms[i] == Message(ws[i])
  {
    seq(|ws|, i requires 0 <= i < |ws| => Message(ws[i]))
  }

  // ---- the four checks ----

  predicate LengthFails(a: Airport, c: AircraftSpecs) {
    a.longestRunwayFt < c.minRunwayLengthFt
  }

  /** A width of 0 means "unknown" and is never held against the airport. */
  predicate WidthFails(a: Airport, c: AircraftSpecs) {
    a.runwayWidthFt != 0 && a.runwayWidthFt < c.minRunwayWidthFt - WidthToleranceFt
  }

  /** A missing or zero capacity means "unknown". */
  predicate WeightFails(a: Airport, c: AircraftSpecs) {
    a.weightCapacityLbs.Some? && a.weightCapacityLbs.value != 0
    && c.maxWeightLbs > a.weightCapacityLbs.value
  }

  /** The surface is compared case-insensitively, the category exactly. */
  predicate SurfaceFails(a: Airport, c: AircraftSpecs) {
    Lower(a.surfaceType) in ["grass", "dirt", "gravel"] && c.category in ["heavy", "super"]
  }

  /** `w` is the warning its own check emits for this pair, and that check fails. */
  predicate Describes(a: Airport, c: AircraftSpecs, w: Warning) {
    match w
    case RunwayTooShort(have, need) =>
      LengthFails(a, c) && have == a.longestRunwayFt && need == c.minRunwayLengthFt
    case RunwayTooNarrow(have, need) =>
      WidthFails(a, c) && have == a.runwayWidthFt && need == c.minRunwayWidthFt
    case WeightExceeded(lbs, cap) =>
      WeightFails(a, c) && lbs == c.maxWeightLbs && Some(cap) == a.weightCapacityLbs
    case SoftSurface(surface, category) =>
      SurfaceFails(a, c) && surface == a.surfaceType && category == c.category
  }

  /** Whether the check of the given rank fails (ranks as in `Warning.Rank`). */
  predicate CheckFails(a: Airport, c: AircraftSpecs, rank: nat) {
    if rank == 0 then LengthFails(a, c)
    else if rank == 1 then WidthFails(a, c)
    else if rank == 2 then WeightFails(a, c)
    else rank == 3 && SurfaceFails(a, c)
  }

  /** Some warning in `ws` comes from the check of the given rank. */
  predicate HasRank(ws: seq<Warning>, rank: nat) {
    exists i :: 0 <= i < |ws| && ws[i].Rank() == rank
  }

  /**
   * `ws` is what the first `n` checks emit: every warning describes its failed
   * check, ranks strictly increase, and a check of rank below `n` has a
   * warning exactly when it fails.
   */
  predicate EmittedBy(a: Airport, c: AircraftSpecs, ws: seq<Warning>, n: nat) {
    && (forall i, j :: 0 <= i < j < |ws| ==> ws[i].Rank() < ws[j].Rank())
    && (forall i :: 0 <= i < |ws| ==> ws[i].Rank() < n && Describes(a, c, ws[i]))
    && (forall k :: 0 <= k < n ==> (HasRank(ws, k) <==> CheckFails(a, c, k)))
  }

  /** `warnings.append(w)` when the check fails. */
  function Emit(ws: seq<Warning>, fails: bool, w: Warning): seq<Warning> {
    if fails then ws + [w] else ws
  }

  lemma EmitNext(a: Airport, c: AircraftSpecs, ws: seq<Warning>, n: nat, w: Warning)
    requires EmittedBy(a, c, ws, n)
    requires w.Rank() == n && (CheckFails(a, c, n) ==> Describes(a, c, w))
    ensures EmittedBy(a, c, Emit(ws, CheckFails(a, c, n), w), n + 1)
  {
    var ws' := Emit(ws, CheckFails(a, c, n), w);
    forall k | 0 <= k < n + 1
      ensures HasRank(ws', k) <==> CheckFails(a, c, k)
    {
      if CheckFails(a, c, n) {
        HasRankAppend(ws, w, k);
      }
    }
  }

  /** Appending a warning adds exactly its rank to those present. */
  lemma HasRankAppend(ws: seq<Warning>, w: Warning, k: nat)
    ensures HasRank(ws + [w], k) <==> HasRank(ws, k) || w.Rank() == k
  {
    if HasRank(ws + [w], k) {
      var i :| 0 <= i < |ws| + 1 && (ws + [w])[i].Rank() == k;
      if i < |ws| {
        assert ws[i].Rank() == k;
      }
    }
    if HasRank(ws, k) {
      var i :| 0 <= i < |ws| && ws[i].Rank() == k;
      assert (ws + [w])[i].Rank() == k;
    }
    if w.Rank() == k {
      assert (ws + [w])[|ws|].Rank() == k;
    }
  }


  /** The warning the check of the given rank emits when it fails. */
  function Expected(a: Airport, c: AircraftSpecs, rank: nat): (w: Warning)
    requires rank < 4
    ensures w.Rank() == rank && (CheckFails(a, c, rank) ==> Describes(a, c, w))
  {
    if rank == 0 then RunwayTooShort(a.longestRunwayFt, c.minRunwayLengthFt)
    else if rank == 1 then RunwayTooNarrow(a.runwayWidthFt, c.minRunwayWidthFt)
    else if rank == 2 then WeightExceeded(c.maxWeightLbs, if a.weightCapacityLbs.Some? then a.weightCapacityLbs.value else 0)
    else SoftSurface(a.surfaceType, c.category)
  }

  /** The warning list after the first `n` checks have run. */
  function CheckedUpTo(a: Airport, c: AircraftSpecs, n: nat): seq<Warning>
    requires n <= 4
  {
    if n == 0 then [] else Emit(CheckedUpTo(a, c, n - 1), CheckFails(a, c, n - 1), Expected(a, c, n - 1))
  }

  lemma {:induction false} CheckedUpToEmitted(a: Airport, c: AircraftSpecs, n: nat)
    requires n <= 4
    ensures EmittedBy(a, c, CheckedUpTo(a, c, n), n)
  {
    if n > 0 {
      CheckedUpToEmitted(a, c, n - 1);
      EmitNext(a, c, CheckedUpTo(a, c, n - 1), n - 1, Expected(a, c, n - 1));
    }
  }

  /**
   * The warnings `validate_compatibility` emits: exactly one per failed check,
   * in check order, each describing that check (so at most four).
   */
  function Warnings(a: Airport, c: AircraftSpecs): (ws: seq<Warning>)
    ensures EmittedBy(a, c, ws, 4)
    ensures |ws| <= 4
  {
    CheckedUpToEmitted(a, c, 4);
    RankedAtMostFour(CheckedUpTo(a, c, 4));
    CheckedUpTo(a, c, 4)
  }

  /**
   * Each kind of warning is present exactly when its check fails, and a
   * failed length check is always the first warning.
   */
  lemma WarningsSpec(a: Airport, c: AircraftSpecs)
    ensures var ws := Warnings(a, c);
      && (LengthFails(a, c) <==> exists i :: 0 <= i < |ws| && ws[i].RunwayTooShort?)
      && (WidthFails(a, c) <==> exists i :: 0 <= i < |ws| && ws[i].RunwayTooNarrow?)
      && (WeightFails(a, c) <==> exists i :: 0 <= i < |ws| && ws[i].WeightExceeded?)
      && (SurfaceFails(a, c) <==> exists i :: 0 <= i < |ws| && ws[i].SoftSurface?)
      && (LengthFails(a, c) ==> ws[0] == RunwayTooShort(a.longestRunwayFt, c.minRunwayLengthFt))
  {
    RanksIdentifyKinds(a, c, Warnings(a, c));
  }

  lemma RanksIdentifyKinds(a: Airport, c: AircraftSpecs, ws: seq<Warning>)
    requires EmittedBy(a, c, ws, 4)
    ensures LengthFails(a, c) <==> exists i :: 0 <= i < |ws| && ws[i].RunwayTooShort?
    ensures WidthFails(a, c) <==> exists i :: 0 <= i < |ws| && ws[i].RunwayTooNarrow?
    ensures WeightFails(a, c) <==> exists i :: 0 <= i < |ws| && ws[i].WeightExceeded?
    ensures SurfaceFails(a, c) <==> exists i :: 0 <= i < |ws| && ws[i].SoftSurface?
    ensures LengthFails(a, c) ==> ws[0] == RunwayTooShort(a.longestRunwayFt, c.minRunwayLengthFt)
  {
    assert CheckFails(a, c, 0) <==> HasRank(ws, 0);
    assert CheckFails(a, c, 1) <==> HasRank(ws, 1);
    assert CheckFails(a, c, 2) <==> HasRank(ws, 2);
    assert CheckFails(a, c, 3) <==> HasRank(ws, 3);
    if LengthFails(a, c) {
      var i :| 0 <= i < |ws| && ws[i].Rank() == 0;
      assert ws[0].Rank() <= ws[i].Rank();
    }
  }

  lemma {:induction false} RankedAtMostFour(ws: seq<Warning>)
    requires forall i, j :: 0 <= i < j < |ws| ==> ws[i].Rank() < ws[j].Rank()
    requires forall i :: 0 <= i < |ws| ==> ws[i].Rank() < 4
    ensures |ws| <= 4
  {
    if |ws| > 0 {
      RankAtLeastIndex(ws, |ws| - 1);
    }
  }

  lemma {:induction false} RankAtLeastIndex(ws: seq<Warning>, i: nat)
    requires forall i, j :: 0 <= i < j < |ws| ==> ws[i].Rank() < ws[j].Rank()
    requires i < |ws|
    ensures ws[i].Rank() >= i
  {
    if i > 0 {
      RankAtLeastIndex(ws, i - 1);
    }
  }

  /** The hard checks alone decide compatibility. */
  predicate Compatible(a: Airport, c: AircraftSpecs) {
    !LengthFails(a, c) && !WidthFails(a, c)
  }

  /** Compatibility holds exactly when no warning comes from a hard check. */
  lemma CompatibleIffNoHardWarning(a: Airport, c: AircraftSpecs)
    ensures Compatible(a, c) <==> forall i :: 0 <= i < |Warnings(a, c)| ==> !Warnings(a, c)[i].IsHard()
  {
    var ws := Warnings(a, c);
    WarningsSpec(a, c);
    if LengthFails(a, c) {
      assert ws[0].IsHard();
    } else if WidthFails(a, c) {
      var i :| 0 <= i < |ws| && ws[i].RunwayTooNarrow?;
      assert ws[i].IsHard();
    }
  }

  /**
   * `validate_compatibility`: the flag starts true and each failed hard check
   * clears it; each failed check appends its message.
   */
  method ValidateCompatibility(a: Airport, c: AircraftSpecs) returns (compatible: bool, warnings: seq<string>)
    ensures compatible <==> !LengthFails(a, c) && !WidthFails(a, c)
    ensures warnings == Messages(Warnings(a, c))
    ensures LengthFails(a, c) ==> !compatible && |warnings| >= 1 && warnings[0] == Message(RunwayTooShort(a.longestRunwayFt, c.minRunwayLengthFt))
    ensures |warnings| <= 4
  {
    ghost var ws: seq<Warning> := [];
    warnings := [];
    compatible := true;
    if LengthFails(a, c) {
      compatible := false;
      MessagesSnoc(ws, RunwayTooShort(a.longestRunwayFt, c.minRunwayLengthFt));
      ws := ws + [RunwayTooShort(a.longestRunwayFt, c.minRunwayLengthFt)];
      warnings := warnings + [Message(RunwayTooShort(a.longestRunwayFt, c.minRunwayLengthFt))];
    }
    assert ws == CheckedUpTo(a, c, 1);
    if WidthFails(a, c) {
      compatible := false;
      MessagesSnoc(ws, RunwayTooNarrow(a.runwayWidthFt, c.minRunwayWidthFt));
      ws := ws + [RunwayTooNarrow(a.runwayWidthFt, c.minRunwayWidthFt)];
      warnings := warnings + [Message(RunwayTooNarrow(a.runwayWidthFt, c.minRunwayWidthFt))];
    }
    assert ws == CheckedUpTo(a, c, 2);
    if WeightFails(a, c) {
      MessagesSnoc(ws, WeightExceeded(c.maxWeightLbs, a.weightCapacityLbs.value));
      ws := ws + [WeightExceeded(c.maxWeightLbs, a.weightCapacityLbs.value)];
      warnings := warnings + [Message(WeightExceeded(c.maxWeightLbs, a.weightCapacityLbs.value))];
    }
    assert ws == CheckedUpTo(a, c, 3);
    if SurfaceFails(a, c) {
      MessagesSnoc(ws, SoftSurface(a.surfaceType, c.category));
      ws := ws + [SoftSurface(a.surfaceType, c.category)];
      warnings := warnings + [Message(SoftSurface(a.surfaceType, c.category))];
    }
    assert ws == CheckedUpTo(a, c, 4);
    WarningsSpec(a, c);
  }

  /** One more warning adds its message at the end. */
  lemma MessagesSnoc(ws: seq<Warning>, w: Warning)
    ensures Messages(ws + [w]) == Messages(ws) + [Message(w)]
  {
  }

  /** A known width within the tolerance, or an unknown (0) width, is never a reason for incompatibility. */
  lemma WidthWithinToleranceIsAccepted(a: Airport, c: AircraftSpecs)
    requires a.runwayWidthFt == 0 || a.runwayWidthFt >= c.minRunwayWidthFt - WidthToleranceFt
    ensures forall i :: 0 <= i < |Warnings(a, c)| ==> !Warnings(a, c)[i].RunwayTooNarrow?
    ensures Compatible(a, c) <==> !LengthFails(a, c)
  {
  }

  // ---- reading the warnings back from the messages ----

  /**
   * Different warnings give different messages. A surface holding ")" could
   * make the soft-surface text ambiguous; the surfaces the check reports
   * hold none.
   */
  lemma MessageInjective(w1: Warning, w2: Warning)
    requires Message(w1) == Message(w2)
    requires w1.SoftSurface? ==> ')' !in w1.surface
    requires w2.SoftSurface? ==> ')' !in w2.surface
    ensures w1 == w2
  {
    MessageLetters(w1);
    MessageLetters(w2);
    match w1
    case RunwayTooShort(have, need) =>
      NumbersInText("Runway too short: ", "ft < ", "ft required", have, need, w2.runwayFt, w2.requiredFt);
    case RunwayTooNarrow(have, need) =>
      NumbersInText("Runway too narrow: ", "ft < ", "ft required", have, need, w2.widthFt, w2.requiredFt);
    case WeightExceeded(lbs, cap) =>
      NumbersInText("Weight capacity may be exceeded: ", "lbs > ", "lbs", lbs, cap, w2.aircraftLbs, w2.capacityLbs);
    case SoftSurface(surface, category) =>
      SurfaceInText(surface, category, w2.surface, w2.category);
  }

  /** The first and twelfth letters of a message tell its kind. */
  lemma MessageLetters(w: Warning)
    ensures |Message(w)| > 11
    ensures w.RunwayTooShort? ==> Message(w)[0] == 'R' && Message(w)[11] == 's'
    ensures w.RunwayTooNarrow? ==> Message(w)[0] == 'R' && Message(w)[11] == 'n'
    ensures w.WeightExceeded? ==> Message(w)[0] == 'W'
    ensures w.SoftSurface? ==> Message(w)[0] == 'S'
  {
    var m := Message(w);
    match w
    case RunwayTooShort(_, _) =>
      assert m[0] == m[..18][0] && m[11] == m[..18][11];
    case RunwayTooNarrow(_, _) =>
      assert m[0] == m[..19][0] && m[11] == m[..19][11];
    case WeightExceeded(_, _) =>
      assert m[0] == m[..33][0] && |m| >= 33;
    case SoftSurface(_, _) =>
      assert m[0] == m[..14][0] && |m| >= 14;
  }

  /** Two ints written between the same three pieces of text are read back. */
  lemma NumbersInText(p: string, mid: string, end: string, a1: int, b1: int, a2: int, b2: int)
    requires p + IntToString(a1) + mid + IntToString(b1) + end == p + IntToString(a2) + mid + IntToString(b2) + end
    requires mid != [] && !IsDigit(mid[0]) && mid[0] != '-'
    requires end != [] && !IsDigit(end[0]) && end[0] != '-'
    ensures a1 == a2 && b1 == b2
  {
    var r1, r2 := mid + IntToString(b1) + end, mid + IntToString(b2) + end;
    Regroup(p, IntToString(a1), mid, IntToString(b1), end);
    Regroup(p, IntToString(a2), mid, IntToString(b2), end);
    DropCommonPrefix(p, IntToString(a1) + r1, IntToString(a2) + r2);
    IntToStringThenText(a1, a2, r1, r2);
    ConcatAssoc(mid, IntToString(b1), end);
    ConcatAssoc(mid, IntToString(b2), end);
    DropCommonPrefix(mid, IntToString(b1) + end, IntToString(b2) + end);
    IntToStringThenText(b1, b2, end, end);
  }

  /** The grouping a message's pieces are read back in. */
  lemma Regroup(p: string, x: string, q: string, y: string, e: string)
    ensures p + x + q + y + e == p + (x + (q + y + e))
  {
    ConcatAssoc(p + x + q, y, e);
    ConcatAssoc(p + x, q, y + e);
    ConcatAssoc(p, x, q + (y + e));
    ConcatAssoc(q, y, e);
  }

  /** The surface and category of a soft-surface message are read back when the surfaces hold no ")". */
  lemma SurfaceInText(s1: string, c1: string, s2: string, c2: string)
    requires Message(SoftSurface(s1, c1)) == Message(SoftSurface(s2, c2))
    requires ')' !in s1 && ')' !in s2
    ensures s1 == s2 && c1 == c2
  {
    var p, q, e := "Soft surface (", ") may not be suitable for ", " aircraft";
    Regroup(p, s1, q, c1, e);
    Regroup(p, s2, q, c2, e);
    DropCommonPrefix(p, s1 + (q + c1 + e), s2 + (q + c2 + e));
    TextThenStop(s1, s2, q + c1 + e, q + c2 + e, ')');
    ConcatAssoc(q, c1, e);
    ConcatAssoc(q, c2, e);
    DropCommonPrefix(q, c1 + e, c2 + e);
    DropCommonSuffix(c1, c2, e);
  }

  /** A surface the soft-surface check accepts holds no ")". */
  lemma SoftSurfaceHasNoParen(surface: string)
    requires Lower(surface) in ["grass", "dirt", "gravel"]
    ensures ')' !in surface
  {
    forall i | 0 <= i < |surface|
      ensures surface[i] != ')'
    {
      assert Lower(surface)[i] == LowerChar(surface[i]);
    }
  }

  /**
   * The messages `validate_compatibility` returns determine its warnings:
   * two checks whose message lists agree found the same failures with the
   * same figures.
   */
  lemma MessagesDetermineWarnings(a1: Airport, c1: AircraftSpecs, a2: Airport, c2: AircraftSpecs)
    requires Messages(Warnings(a1, c1)) == Messages(Warnings(a2, c2))
    ensures Warnings(a1, c1) == Warnings(a2, c2)
  {
    var ws1, ws2 := Warnings(a1, c1), Warnings(a2, c2);
    forall i | 0 <= i < |ws1|
      ensures ws1[i] == ws2[i]
    {
      assert Describes(a1, c1, ws1[i]) && Describes(a2, c2, ws2[i]);
      if ws1[i].SoftSurface? {
        SoftSurfaceHasNoParen(ws1[i].surface);
      }
      if ws2[i].SoftSurface? {
        SoftSurfaceHasNoParen(ws2[i].surface);
      }
      MessageInjective(ws1[i], ws2[i]);
    }
  }

  // ---- the score ----

  /** Score multiplier for the runway length: a ratio below 1, 1 above 1.5, a ramp from 0.8 to 1 between. */
  function LengthFactor(ratio: real): (m: real)
    ensures m <= 1.0
    ensures ratio >= 0.0 ==> m >= 0.0
    ensures ratio < 1.0 ==> m == ratio
    ensures 1.0 <= ratio ==> 0.8 <= m
    ensures m == 1.0 <==> ratio >= 1.5
  {
    if ratio < 1.0 then ratio
    else if ratio > 1.5 then 1.0
    else 0.8 + 0.2 * (ratio - 1.0) / 0.5
  }

  /** Multipliers by (lower-case) surface name. */
  const SurfaceScores: map<string, real> :=
    map["asphalt" := 1.0, "concrete" := 1.0, "paved" := 1.0,
        "grass" := 0.7, "gravel" := 0.6, "dirt" := 0.5, "unknown" := 0.8]

  predicate IsPaved(surface: string) {
    Lower(surface) in ["asphalt", "concrete", "paved"]
  }

  /** Surface multiplier, 0.8 for a surface the table does not know. */
  function SurfaceFactor(surface: string): (f: real)
    ensures 0.5 <= f <= 1.0
    ensures f == 1.0 <==> IsPaved(surface)
    ensures Lower(surface) !in SurfaceScores ==> f == 0.8
  {
    var key := Lower(surface);
    if key in SurfaceScores then SurfaceScores[key] else 0.8
  }

  function LengthRatio(a: Airport, c: AircraftSpecs): real
    requires c.minRunwayLengthFt != 0
  {
    a.longestRunwayFt as real / c.minRunwayLengthFt as real
  }

  /**
   * `calculate_compatibility_score`. The cap at 1 never binds: both
   * multipliers are at most 1 and the surface one is positive, so the score
   * is their product; it lies in [0, 1] for a positive requirement and a
   * non-negative runway.
   */
  function CompatibilityScore(a: Airport, c: AircraftSpecs): (s: real)
    requires c.minRunwayLengthFt != 0
    ensures s == LengthFactor(LengthRatio(a, c)) * SurfaceFactor(a.surfaceType)
    ensures s <= 1.0
    ensures c.minRunwayLengthFt > 0 && a.longestRunwayFt >= 0 ==> 0.0 <= s
  {
    var m := LengthFactor(LengthRatio(a, c));
    var f := SurfaceFactor(a.surfaceType);
    ProductAtMostOne(m, f);
    var score := m * f;
    if score < 1.0 then score else 1.0
  }

  lemma ProductAtMostOne(m: real, f: real)
    requires m <= 1.0 && 0.0 < f <= 1.0
    ensures m * f <= 1.0
    ensures m >= 0.0 ==> m * f >= 0.0
  {
    if m >= 0.0 {
      assert m * f <= 1.0 * f;
    } else {
      assert m * f < 0.0;
    }
  }

  /** The score is 1 exactly for a runway at least 1.5 times the requirement with a paved surface. */
  lemma {:induction false} ScoreIsOneIff(a: Airport, c: AircraftSpecs)
    requires c.minRunwayLengthFt > 0 && a.longestRunwayFt >= 0
    ensures CompatibilityScore(a, c) == 1.0 <==> LengthRatio(a, c) >= 1.5 && IsPaved(a.surfaceType)
  {
    var m := LengthFactor(LengthRatio(a, c));
    var f := SurfaceFactor(a.surfaceType);
    ProductBelowFactors(m, f);
  }

  lemma ProductBelowFactors(m: real, f: real)
    requires 0.0 <= m <= 1.0 && 0.0 < f <= 1.0
    ensures m * f <= f && m * f <= m
  {
    assert m * f <= 1.0 * f;
    assert m * f <= m * 1.0;
  }

  /**
   * The score is not monotone in runway length: a runway just short of the
   * requirement scores more than one exactly meeting it.
   */
  lemma ShortRunwayCanOutscore()
    ensures LengthFactor(0.9) > LengthFactor(1.0)
  {
  }

  /**
   * A Cessna 172 (1200 ft) at a 1000 ft grass strip: incompatible, the
   * length warning first, and a lower score than the same strip at 1400 ft.
   */
  lemma CessnaOnShortGrassStrip(pos: Coordinates)
    ensures var cessna := AircraftSpecs("Cessna 172", 1200, 50, 2550, 65, "light");
            var short := NewAirport("TEST", "Strip", pos, 3000, 1000, 0, "grass");
            var longer := NewAirport("TEST", "Strip", pos, 3000, 1400, 0, "grass");
            && !Compatible(short, cessna)
            && |Warnings(short, cessna)| >= 1 && Warnings(short, cessna)[0] == RunwayTooShort(1000, 1200)
            && CompatibilityScore(short, cessna) < CompatibilityScore(longer, cessna)
  {
    var cessna := AircraftSpecs("Cessna 172", 1200, 50, 2550, 65, "light");
    var short := NewAirport("TEST", "Strip", pos, 3000, 1000, 0, "grass");
    var longer := NewAirport("TEST", "Strip", pos, 3000, 1400, 0, "grass");
    WarningsSpec(short, cessna);
    assert Lower("grass") == "grass";
    assert SurfaceFactor("grass") == 0.7;
    assert LengthRatio(short, cessna) == 1000.0 / 1200.0;
    assert LengthRatio(longer, cessna) == 1400.0 / 1200.0;
  }
}
