/**
 * The highlight pass over today's detections: each species heard today is
 * represented by its earliest detection, classified against the species'
 * history (first ever, first of the season, unusual, rare sighting, or
 * nothing), and the five most confident highlights are kept. A simpler
 * pass, used when the full one fails, keeps the five most confident
 * representatives without classifying them.
 */
module Highlights {
  import opened Model
  import opened Ranking
  import opened Grouping
  import opened SpeciesHistory
  import opened Rarity
  import opened HistoricalCache

  const DAY_MS: int := 1000 * 60 * 60 * 24
  /** A species not heard for this many days is new this season. */
  const SEASON_DAYS: int := 90
  /** Below this confidence a returning species is taken for a misidentification. */
  const MIN_CONFIDENCE: real := 0.4
  const RARE_CONFIDENCE: real := 0.9
  const RARE_MAX_COUNT: nat := 10
  const MAX_HIGHLIGHTS: nat := 5

  datatype HighlightType = FirstEver | FirstOfSeason | Unusual | RareSighting {
    /** The `highlightType` string. */
    function Name(): string {
      match this
      case FirstEver => "first-ever"
      case FirstOfSeason => "first-of-season"
      case Unusual => "unusual"
      case RareSighting => "rare-sighting"
    }
  }

  /** A detection as the highlight card receives it; the simple pass leaves the type unset. */
  datatype Highlight = Highlight(detection: Detection, highlightType: Option<HighlightType>)

  /**
   * What the pass reads from the clock: the current instant, today's date
   * (UTC, as `toISOString` writes it) and the instant 120 calendar days ago.
   */
  datatype Clock = Clock(now: int, today: string, unusualCutoff: int)

  /** 120 calendar days back lies before 90 days of 24 hours back. */
  predicate PlausibleClock(c: Clock) {
    c.unusualCutoff <= c.now - SEASON_DAYS * DAY_MS
  }

  /** `Math.floor((now - last) / day)`; Dafny's division by a positive divisor rounds down too. */
  function DaysSince(now: int, last: int): int {
    (now - last) / DAY_MS
  }

  /**
   * The ladder applied to a species' earliest detection today: without a
   * history it is first-ever when there is any historical data at all;
   * otherwise first-of-season after 90 days of absence, dropped below 0.4
   * confidence, unusual when the rarity test says so, a rare sighting above
   * 0.9 confidence with fewer than 10 earlier detections, else dropped.
   */
  function Classify(rep: Detection, h: Option<History>, haveHistory: bool, clock: Clock): Option<HighlightType> {
    match h
    case None => if haveHistory then Some(FirstEver) else None
    case Some(e) =>
      if DaysSince(clock.now, e.last) >= SEASON_DAYS then Some(FirstOfSeason)
      else if rep.confidence < MIN_CONFIDENCE then None
      else if IsUnusualDetection(rep, e, clock.unusualCutoff) then Some(Unusual)
      else if rep.confidence > RARE_CONFIDENCE && e.count < RARE_MAX_COUNT then Some(RareSighting)
      else None
  }

  /** Each rung of the ladder, read from the result. */
  lemma ClassifyMeaning(rep: Detection, h: Option<History>, haveHistory: bool, clock: Clock)
    ensures var r := Classify(rep, h, haveHistory, clock);
      && (r == Some(FirstEver) <==> h.None? && haveHistory)
      && (r == Some(FirstOfSeason) <==> h.Some? && DaysSince(clock.now, h.value.last) >= SEASON_DAYS)
      && (r.Some? && rep.confidence < MIN_CONFIDENCE ==> r == Some(FirstEver) || r == Some(FirstOfSeason))
      && (r == Some(Unusual) ==> h.Some? && !IsCommonBird(ToLower(rep.species.commonName)))
      && (r == Some(RareSighting) ==>
            h.Some? && rep.confidence > RARE_CONFIDENCE && h.value.count < RARE_MAX_COUNT
            && DaysSince(clock.now, h.value.last) < SEASON_DAYS
            && !IsUnusualDetection(rep, h.value, clock.unusualCutoff))
  {
  }

  /** Fewer than 90 whole days since `last` puts `last` within the last 90 days. */
  lemma WithinSeason(now: int, last: int)
    requires DaysSince(now, last) < SEASON_DAYS
    ensures last > now - SEASON_DAYS * DAY_MS
  {
    var q := (now - last) / DAY_MS;
    assert now - last == q * DAY_MS + (now - last) % DAY_MS;
    assert q <= SEASON_DAYS - 1;
    assert q * DAY_MS <= (SEASON_DAYS - 1) * DAY_MS;
  }

  /**
   * Behind the 90-day rung, the 120-day test of the rarity check can never
   * fire: a species is reported unusual only for having fewer than 3
   * earlier detections.
   */
  lemma UnusualMeansFewSightings(rep: Detection, h: Option<History>, haveHistory: bool, clock: Clock)
    requires PlausibleClock(clock)
    requires Classify(rep, h, haveHistory, clock) == Some(Unusual)
    ensures h.Some? && h.value.count < FEW_SIGHTINGS
  {
    WithinSeason(clock.now, h.value.last);
  }

  // ---------------------------------------------------------------------------
  // The candidates, one per species heard today

  function HighlightConfidence(h: Highlight): real {
    h.detection.confidence
  }

  function HighlightSpecies(h: Highlight): string {
    h.detection.species.id
  }

  /** The classification of one species heard today. */
  function ClassifySpecies(todays: seq<Detection>, id: string, history: map<string, History>, haveHistory: bool, clock: Clock): Option<HighlightType>
    requires GroupOf(todays, id) != []
  {
    Classify(Earliest(GroupOf(todays, id)), Lookup(history, id), haveHistory, clock)
  }

  /** `h` is its species' earliest detection today, carrying the species' classification, which is not empty. */
  predicate Describes(h: Highlight, todays: seq<Detection>, history: map<string, History>, haveHistory: bool, clock: Clock) {
    var id := HighlightSpecies(h);
    && GroupOf(todays, id) != []
    && h.detection == Earliest(GroupOf(todays, id))
    && h.highlightType.Some?
    && h.highlightType == ClassifySpecies(todays, id, history, haveHistory, clock)
  }

  /** The highlights pushed by the per-species loop, in key order. */
  function CandidatesOf(todays: seq<Detection>, order: seq<string>, history: map<string, History>, haveHistory: bool, clock: Clock): seq<Highlight>
    requires AllHeard(todays, order)
  {
    if order == [] then []
    else
      var id := order[|order| - 1];
      AllHeardInit(todays, order);
      var rest := CandidatesOf(todays, order[..|order| - 1], history, haveHistory, clock);
      var kind := ClassifySpecies(todays, id, history, haveHistory, clock);
      if kind.Some? then rest + [Highlight(Earliest(GroupOf(todays, id)), kind)] else rest
  }

  /** The representative of a species' group belongs to that species. */
  lemma EarliestOfSpecies(todays: seq<Detection>, id: string)
    requires GroupOf(todays, id) != []
    ensures Earliest(GroupOf(todays, id)).species.id == id
  {
    var g := GroupOf(todays, id);
    EarliestIsFirstArrival(g);
    GroupOfMembers(todays, id);
    var i :| 0 <= i < |g| && g[i] == Earliest(g);
    assert g[i] in g;
  }

  /** Every candidate is the highlight of one of the listed species. */
  lemma {:induction false} CandidatesSound(todays: seq<Detection>, order: seq<string>, history: map<string, History>, haveHistory: bool, clock: Clock)
    requires AllHeard(todays, order)
    ensures forall h :: h in CandidatesOf(todays, order, history, haveHistory, clock) ==>
      HighlightSpecies(h) in order && Describes(h, todays, history, haveHistory, clock)
  {
    if order != [] {
      var init := order[..|order| - 1];
      var id := order[|order| - 1];
      AllHeardInit(todays, order);
      CandidatesSound(todays, init, history, haveHistory, clock);
      EarliestOfSpecies(todays, id);
      assert forall x :: x in init ==> x in order;
    }
  }

  /** A listed species gets a candidate exactly when its classification is not empty. */
  lemma {:induction false} CandidatesComplete(todays: seq<Detection>, order: seq<string>, history: map<string, History>, haveHistory: bool, clock: Clock, id: string)
    requires AllHeard(todays, order) && id in order
    ensures GroupOf(todays, id) != []
    ensures ClassifySpecies(todays, id, history, haveHistory, clock).Some?
      <==> exists h :: h in CandidatesOf(todays, order, history, haveHistory, clock) && HighlightSpecies(h) == id
  {
    var k :| 0 <= k < |order| && order[k] == id;
    CandidatesSound(todays, order, history, haveHistory, clock);
    var init := order[..|order| - 1];
    var last := order[|order| - 1];
    AllHeardInit(todays, order);
    EarliestOfSpecies(todays, last);
    if id in init {
      CandidatesComplete(todays, init, history, haveHistory, clock, id);
    } else if ClassifySpecies(todays, id, history, haveHistory, clock).Some? {
      var c := CandidatesOf(todays, order, history, haveHistory, clock);
      assert c[|c| - 1] in c && HighlightSpecies(c[|c| - 1]) == id;
    }
  }

  /** No species has two candidates. */
  lemma {:induction false} CandidatesDistinct(todays: seq<Detection>, order: seq<string>, history: map<string, History>, haveHistory: bool, clock: Clock)
    requires AllHeard(todays, order) && Distinct(order)
    ensures DistinctBy(CandidatesOf(todays, order, history, haveHistory, clock), HighlightSpecies)
  {
    if order != [] {
      var init := order[..|order| - 1];
      var id := order[|order| - 1];
      AllHeardInit(todays, order);
      assert Distinct(init);
      assert id !in init;
      CandidatesDistinct(todays, init, history, haveHistory, clock);
      CandidatesSound(todays, init, history, haveHistory, clock);
      EarliestOfSpecies(todays, id);
      var rest := CandidatesOf(todays, init, history, haveHistory, clock);
      assert forall j :: 0 <= j < |rest| ==> rest[j] in rest;
    }
  }

  // ---------------------------------------------------------------------------
  // The whole pass

  /** The history built from the historical detections that are not dated today. */
  function PastHistory(historical: seq<Detection>, clock: Clock): map<string, History> {
    HistoryMap(PastOf(historical, clock.today))
  }

  /** The candidates of a non-empty day. */
  function DayCandidates(todays: seq<Detection>, historical: seq<Detection>, clock: Clock): seq<Highlight> {
    SpeciesOrderHeard(todays);
    CandidatesOf(todays, SpeciesOrder(todays), PastHistory(historical, clock), |historical| > 0, clock)
  }

  /**
   * `processHighlights` on today's detections and the historical detections
   * it used (cached or freshly fetched): nothing for an empty day, else the
   * five most confident candidates, ties kept in key order.
   */
  function HighlightsOf(todays: seq<Detection>, historical: seq<Detection>, clock: Clock): seq<Highlight> {
    if todays == [] then []
    else Take(SortDesc(DayCandidates(todays, historical, clock), HighlightConfidence), MAX_HIGHLIGHTS)
  }

  /** At most five highlights, most confident first, one per species; none on an empty day. */
  lemma HighlightsShape(todays: seq<Detection>, historical: seq<Detection>, clock: Clock)
    ensures var r := HighlightsOf(todays, historical, clock);
      && |r| <= MAX_HIGHLIGHTS
      && NonIncreasing(r, HighlightConfidence)
      && DistinctBy(r, HighlightSpecies)
      && (todays == [] ==> r == [])
  {
    if todays != [] {
      var order := SpeciesOrder(todays);
      SpeciesOrderHeard(todays);
      var c := DayCandidates(todays, historical, clock);
      CandidatesDistinct(todays, order, PastHistory(historical, clock), |historical| > 0, clock);
      SortDescFacts(c, HighlightConfidence);
      SortDescKeepsDistinct(c, HighlightConfidence, HighlightSpecies);
    }
  }

  /** Every highlight is a species heard today, its earliest detection, with its classification against the history. */
  lemma HighlightsDescribe(todays: seq<Detection>, historical: seq<Detection>, clock: Clock)
    ensures forall h :: h in HighlightsOf(todays, historical, clock) ==>
      Describes(h, todays, PastHistory(historical, clock), |historical| > 0, clock)
  {
    if todays != [] {
      SpeciesOrderHeard(todays);
      var c := DayCandidates(todays, historical, clock);
      CandidatesSound(todays, SpeciesOrder(todays), PastHistory(historical, clock), |historical| > 0, clock);
      var s := SortDesc(c, HighlightConfidence);
      SortDescFacts(c, HighlightConfidence);
      forall h | h in Take(s, MAX_HIGHLIGHTS)
        ensures h in c
      {
        assert h in s;
        assert h in multiset(s);
      }
    }
  }

  /** The best are kept: a classified species left out was no more confident than the fifth highlight. */
  lemma HighlightsKeepMostConfident(todays: seq<Detection>, historical: seq<Detection>, clock: Clock, id: string)
    requires GroupOf(todays, id) != []
    requires ClassifySpecies(todays, id, PastHistory(historical, clock), |historical| > 0, clock).Some?
    ensures var r := HighlightsOf(todays, historical, clock);
      (exists h :: h in r && HighlightSpecies(h) == id)
      || (|r| == MAX_HIGHLIGHTS && Earliest(GroupOf(todays, id)).confidence <= r[MAX_HIGHLIGHTS - 1].detection.confidence)
  {
    var order := SpeciesOrder(todays);
    GroupNonEmpty(todays, id);
    SpeciesOrderHeard(todays);
    var c := DayCandidates(todays, historical, clock);
    CandidatesComplete(todays, order, PastHistory(historical, clock), |historical| > 0, clock, id);
    CandidatesSound(todays, order, PastHistory(historical, clock), |historical| > 0, clock);
    var x :| x in c && HighlightSpecies(x) == id;
    assert x in multiset(c);
    TopKeepsBest(c, HighlightConfidence, MAX_HIGHLIGHTS, x);
  }

  /** With an empty history and no historical data, the loop pushes nothing. */
  lemma {:induction false} NoCandidatesWithoutHistory(todays: seq<Detection>, order: seq<string>, clock: Clock)
    requires AllHeard(todays, order)
    ensures CandidatesOf(todays, order, map[], false, clock) == []
  {
    if order != [] {
      AllHeardInit(todays, order);
      NoCandidatesWithoutHistory(todays, order[..|order| - 1], clock);
    }
  }

  /** Without any historical data every species is skipped, so there is nothing to highlight. */
  lemma NoHistoryNoHighlights(todays: seq<Detection>, clock: Clock)
    ensures HighlightsOf(todays, [], clock) == []
  {
    if todays != [] {
      assert PastHistory([], clock) == map[];
      SpeciesOrderHeard(todays);
      NoCandidatesWithoutHistory(todays, SpeciesOrder(todays), clock);
    }
  }

  /**
   * A fetch that gathers nothing (its first page fails) is cached like any
   * other: for the next six hours every call is served the empty list, and
   * so shows no highlights, whatever was heard.
   */
  lemma EmptyFetchSilencesHighlights(entries: map<string, CacheEntry>, key: string, stored: int, clock: Clock, todays: seq<Detection>)
    requires stored <= clock.now < stored + CACHE_DURATION
    ensures FreshData(entries[key := NewEntry([], stored)], key, clock.now) == Some([])
    ensures HighlightsOf(todays, FreshData(entries[key := NewEntry([], stored)], key, clock.now).value, clock) == []
  {
    StoredDataServedForSixHours(entries, key, [], stored, clock.now);
    NoHistoryNoHighlights(todays, clock);
  }

  /** One more listed species adds its highlight when its classification is not empty. */
  lemma CandidatesStep(todays: seq<Detection>, order: seq<string>, history: map<string, History>, haveHistory: bool, clock: Clock, i: nat)
    requires AllHeard(todays, order) && i < |order|
    ensures AllHeard(todays, order[..i]) && AllHeard(todays, order[..i + 1])
    ensures var kind := ClassifySpecies(todays, order[i], history, haveHistory, clock);
      CandidatesOf(todays, order[..i + 1], history, haveHistory, clock)
      == CandidatesOf(todays, order[..i], history, haveHistory, clock)
         + (if kind.Some? then [Highlight(Earliest(GroupOf(todays, order[i])), kind)] else [])
  {
    var pre := order[..i + 1];
    assert pre[..i] == order[..i];
    assert AllHeard(todays, pre) by {
      forall k | 0 <= k < |pre| ensures GroupOf(todays, pre[k]) != [] {
        assert pre[k] == order[k];
      }
    }
    AllHeardInit(todays, pre);
  }

  /**
   * The per-species loop: the earliest detection of each group, classified,
   * pushed when its classification is not empty.
   */
  method ClassifyGroups(todays: seq<Detection>, order: seq<string>, groups: map<string, seq<Detection>>, history: map<string, History>, haveHistory: bool, clock: Clock)
    returns (highlights: seq<Highlight>)
    requires order == SpeciesOrder(todays) && groups == Groups(todays)
    ensures AllHeard(todays, order)
    ensures highlights == CandidatesOf(todays, order, history, haveHistory, clock)
  {
    SpeciesOrderHeard(todays);
    highlights := [];
    for i := 0 to |order|
      invariant highlights == CandidatesOf(todays, order[..i], history, haveHistory, clock)
    {
      CandidatesStep(todays, order, history, haveHistory, clock, i);
      var first := Earliest(groups[order[i]]);
      var kind := Classify(first, Lookup(history, order[i]), haveHistory, clock);
      if kind.Some? {
        highlights := highlights + [Highlight(first, kind)];
      }
    }
    assert order[..|order|] == order;
  }

  // ---------------------------------------------------------------------------
  // The fallback pass

  /** The earliest detection of each species, in key order. */
  function RepsOf(ds: seq<Detection>, order: seq<string>): (r: seq<Detection>)
    requires AllHeard(ds, order)
    ensures |r| == |order|
  {
    if order == [] then []
    else
      RepsOf(ds, order[..|order| - 1]) + [Earliest(GroupOf(ds, order[|order| - 1]))]
  }

  lemma {:induction false} RepsOfMeaning(ds: seq<Detection>, order: seq<string>)
    requires AllHeard(ds, order)
    ensures forall i :: 0 <= i < |order| ==> RepsOf(ds, order)[i] == Earliest(GroupOf(ds, order[i]))
  {
    if order != [] {
      AllHeardInit(ds, order);
      RepsOfMeaning(ds, order[..|order| - 1]);
    }
  }

  /** `processHighlightsSimple`: the five most confident species representatives. */
  function SimpleHighlightsOf(ds: seq<Detection>): seq<Detection> {
    SpeciesOrderHeard(ds);
    Take(SortDesc(RepsOf(ds, SpeciesOrder(ds)), Confidence), MAX_HIGHLIGHTS)
  }

  /**
   * The fallback keeps min(5, number of species) detections, most confident
   * first, one per species, each its species' earliest detection.
   */
  lemma SimpleHighlightsShape(ds: seq<Detection>)
    ensures var r := SimpleHighlightsOf(ds);
      var n := |SpeciesOrder(ds)|;
      && |r| == (if n < MAX_HIGHLIGHTS then n else MAX_HIGHLIGHTS)
      && NonIncreasing(r, Confidence)
      && DistinctBy(r, SpeciesId)
      && (forall i :: 0 <= i < |r| ==>
            GroupOf(ds, SpeciesId(r[i])) != [] && r[i] == Earliest(GroupOf(ds, SpeciesId(r[i]))))
  {
    var order := SpeciesOrder(ds);
    SpeciesOrderHeard(ds);
    var reps := RepsOf(ds, order);
    RepsOfFacts(ds, order);
    SortDescFacts(reps, Confidence);
    SortDescKeepsDistinct(reps, Confidence, SpeciesId);
    SortDescMembers(reps, Confidence);
    var s := SortDesc(reps, Confidence);
    var r := Take(s, MAX_HIGHLIGHTS);
    assert r == SimpleHighlightsOf(ds);
    forall i | 0 <= i < |r|
      ensures GroupOf(ds, SpeciesId(r[i])) != [] && r[i] == Earliest(GroupOf(ds, SpeciesId(r[i])))
    {
      assert r[i] == s[i];
      assert s[i] in reps;
    }
  }

  /** The representatives of distinct species belong to distinct species, each its group's earliest. */
  lemma RepsOfFacts(ds: seq<Detection>, order: seq<string>)
    requires AllHeard(ds, order) && Distinct(order)
    ensures DistinctBy(RepsOf(ds, order), SpeciesId)
    ensures forall x :: x in RepsOf(ds, order) ==>
      GroupOf(ds, SpeciesId(x)) != [] && x == Earliest(GroupOf(ds, SpeciesId(x)))
  {
    var reps := RepsOf(ds, order);
    RepsOfMeaning(ds, order);
    forall i | 0 <= i < |order| ensures SpeciesId(reps[i]) == order[i] {
      EarliestOfSpecies(ds, order[i]);
    }
  }

  /** `processHighlightsSimple`: group, take each group's earliest detection, keep the five most confident. */
  method ProcessHighlightsSimple(ds: seq<Detection>) returns (r: seq<Detection>)
    ensures r == SimpleHighlightsOf(ds)
  {
    var order, groups := GroupBySpecies(ds);
    SpeciesOrderHeard(ds);
    var highlights: seq<Detection> := [];
    for i := 0 to |order|
      invariant highlights == RepsOf(ds, order[..i])
    {
      assert order[..i + 1][..i] == order[..i];
      GroupNonEmpty(ds, order[i]);
      highlights := highlights + [Earliest(groups[order[i]])];
    }
    assert order[..|order|] == order;
    r := Take(SortDesc(highlights, Confidence), MAX_HIGHLIGHTS);
  }

  // ---------------------------------------------------------------------------
  // The pass with its fallback

  /** The fallback's detections as highlights without a type. */
  function Untyped(ds: seq<Detection>): (r: seq<Highlight>)
    ensures |r| == |ds|
    ensures forall i :: 0 <= i < |ds| ==> r[i] == Highlight(ds[i], None)
  {
    if ds == [] then [] else [Highlight(ds[0], None)] + Untyped(ds[1..])
  }

  /**
   * `processHighlights`: returns nothing for an empty day without touching
   * the cache; otherwise sorts `stationIds` in place to build the cache
   * key and takes the historical detections from the cache or, on a miss,
   * from `fetched` (what the paginated fetch gathered, possibly nothing),
   * which is stored for six hours. It then builds the species history,
   * groups today's detections and classifies each species' earliest one.
   * `passThrows` says that reading the historical or today's detections
   * raised an error (a historical detection the history loop cannot read,
   * or a detection of today whose species has no common name, which the
   * rarity test lower-cases); the error is caught after the cache was
   * updated, and the simple pass answers instead.
   */
  method ProcessHighlights(cache: Cache, stationIds: array<string>, todays: seq<Detection>, clock: Clock,
                           fetched: seq<Detection>, passThrows: bool)
    returns (r: seq<Highlight>)
    requires cache.Valid()
    modifies cache, stationIds
    ensures cache.Valid()
    ensures todays == [] ==> r == [] && unchanged(cache) && unchanged(stationIds)
    ensures todays != [] ==>
      var key := CacheKey(old(stationIds[..]));
      var cached := FreshData(old(cache.entries), key, clock.now);
      var historical := if cached.Some? then cached.value else fetched;
      && stationIds[..] == SortStrings(old(stationIds[..]))
      && r == (if passThrows then Untyped(SimpleHighlightsOf(todays)) else HighlightsOf(todays, historical, clock))
      && cache.entries == (if cached.Some? then old(cache.entries) else old(cache.entries)[key := NewEntry(fetched, clock.now)])
      && cache.order == (if cached.Some? then old(cache.order) else OrderAfterSet(old(cache.order), key))
  {
    if |todays| == 0 {
      return [];
    }
    var key := MakeCacheKey(stationIds);
    var historical := cache.GetOrFetch(key, clock.now, fetched);
    if passThrows {
      var simple := ProcessHighlightsSimple(todays);
      return Untyped(simple);
    }
    var history := BuildSpeciesHistory(historical, clock.today);
    var order, groups := GroupBySpecies(todays);
    var highlights := ClassifyGroups(todays, order, groups, history, |historical| > 0, clock);
    r := Take(SortDesc(highlights, HighlightConfidence), MAX_HIGHLIGHTS);
  }
}
