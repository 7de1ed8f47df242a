/**
 * The activity-patterns card: the first three species of the time-of-day
 * counts, each with a 24-entry sparkline of detections per hour.
 */
module PatternsCard {
  import opened Model

  const HOURS: nat := 24
  const MAX_PATTERNS: nat := 3
  const PATTERNS_ERROR: string := "Failed to load pattern data"

  /** One hour bin of the time-of-day counts. */
  datatype Bin = Bin(key: int, count: int)

  /** One species of the time-of-day counts. */
  datatype TimeOfDayCount = TimeOfDayCount(species: Species, count: int, bins: seq<Bin>)

  /** One pattern shown on the card. */
  datatype Pattern = Pattern(species: Species, count: int, sparkline: seq<int>)

  /** What the card shows. */
  datatype PatternsView = PatternsView(patterns: seq<Pattern>, isLoading: bool, error: Option<string>)

  /** `bins.find(b => b.key === hour)`. */
  function FindBin(bins: seq<Bin>, hour: int): (r: Option<Bin>)
    ensures r.Some? ==> r.value in bins && r.value.key == hour
    ensures r.None? ==> forall b :: b in bins ==> b.key != hour
  {
    if bins == [] then None
    else if bins[0].key == hour then Some(bins[0])
    else FindBin(bins[1..], hour)
  }

  /** The count of the bin for `hour`, or 0 when there is none. */
  function HourCount(bins: seq<Bin>, hour: int): int {
    match FindBin(bins, hour)
    case Some(b) => b.count
    case None => 0
  }

  /** `Array.from({ length: 24 }, (_, hour) => ...)`. */
  function Sparkline(bins: seq<Bin>): (r: seq<int>)
    ensures |r| == HOURS
  {
    seq(HOURS, hour => HourCount(bins, hour))
  }

  /** The first bin with a given key decides that hour; a later duplicate is ignored. */
  lemma {:induction false} FirstBinWins(bins: seq<Bin>, i: nat)
    requires i < |bins|
    requires forall j :: 0 <= j < i ==> bins[j].key != bins[i].key
    ensures HourCount(bins, bins[i].key) == bins[i].count
  {
    if i > 0 {
      assert bins[0].key != bins[i].key;
      FirstBinWins(bins[1..], i - 1);
    }
  }

  /** The bins whose key is an hour of the day. */
  function InDay(bins: seq<Bin>): (r: seq<Bin>)
    ensures forall b :: b in r <==> b in bins && 0 <= b.key < HOURS
  {
    if bins == [] then []
    else (if 0 <= bins[0].key < HOURS then [bins[0]] else []) + InDay(bins[1..])
  }

  /** Within the day, dropping bins with other keys does not change which bin is found. */
  lemma {:induction false} FindBinInDay(bins: seq<Bin>, hour: int)
    requires 0 <= hour < HOURS
    ensures FindBin(InDay(bins), hour) == FindBin(bins, hour)
  {
    if bins != [] {
      FindBinInDay(bins[1..], hour);
      if 0 <= bins[0].key < HOURS {
        assert InDay(bins) == [bins[0]] + InDay(bins[1..]);
        assert InDay(bins)[1..] == InDay(bins[1..]);
      } else {
        assert InDay(bins) == InDay(bins[1..]);
        assert bins[0].key != hour;
      }
    }
  }

  /** Bins with keys outside 0..23 are ignored. */
  lemma SparklineIgnoresOtherKeys(bins: seq<Bin>)
    ensures Sparkline(InDay(bins)) == Sparkline(bins)
  {
    forall hour | 0 <= hour < HOURS ensures Sparkline(InDay(bins))[hour] == Sparkline(bins)[hour] {
      FindBinInDay(bins, hour);
    }
  }

  /** The pattern of one species: species and count copied, the sparkline built from its bins. */
  function PatternOf(item: TimeOfDayCount): Pattern {
    Pattern(item.species, item.count, Sparkline(item.bins))
  }

  /** `timeOfDayData.slice(0, 3).map(...)`. */
  function Patterns(data: seq<TimeOfDayCount>): (r: seq<Pattern>)
    ensures |r| == |Take(data, MAX_PATTERNS)|
  {
    var top := Take(data, MAX_PATTERNS);
    seq(|top|, i requires 0 <= i < |top| => PatternOf(top[i]))
  }

  /** At most three patterns, the first three entries in order, each with 24 hours. */
  lemma PatternsMeaning(data: seq<TimeOfDayCount>)
    ensures var r := Patterns(data);
      && |r| <= MAX_PATTERNS
      && (|data| >= MAX_PATTERNS ==> |r| == MAX_PATTERNS)
      && forall i :: 0 <= i < |r| ==>
           && r[i].species == data[i].species
           && r[i].count == data[i].count
           && |r[i].sparkline| == HOURS
           && forall h :: 0 <= h < HOURS ==> r[i].sparkline[h] == HourCount(data[i].bins, h)
  {
    var top := Take(data, MAX_PATTERNS);
    assert forall i :: 0 <= i < |top| ==> top[i] == data[i];
  }

  /**
   * One refresh: with no stations the patterns and the error are cleared
   * and nothing is fetched; otherwise `fetched` is the time-of-day counts,
   * or `None` when the fetch rejects, which records the error.
   * `getTimeOfDayCounts` catches its own request errors and resolves with
   * `[]`, so a network failure arrives as `Some([])`; `None` is the card's
   * `catch` as written, which that leaves unreachable.
   */
  function Refresh(view: PatternsView, stationCount: nat, fetched: Option<seq<TimeOfDayCount>>): (r: PatternsView)
    ensures stationCount == 0 ==> r.patterns == [] && r.error == None
    ensures stationCount > 0 && fetched.Some? ==> r.patterns == Patterns(fetched.value) && r.error == None && !r.isLoading
    ensures stationCount > 0 && fetched.None? ==> r.patterns == [] && r.error == Some(PATTERNS_ERROR) && !r.isLoading
  {
    if stationCount == 0 then PatternsView([], view.isLoading, None)
    else match fetched
      case Some(data) => PatternsView(Patterns(data), false, None)
      case None => PatternsView([], false, Some(PATTERNS_ERROR))
  }

  /** A failed request reaches the card as an empty list: no patterns, and no error shown. */
  lemma FailedRequestShowsNothing(view: PatternsView, stationCount: nat)
    requires stationCount > 0
    ensures Refresh(view, stationCount, Some([])).patterns == []
    ensures Refresh(view, stationCount, Some([])).error == None
  {
    var none: seq<TimeOfDayCount> := [];
    assert Take(none, MAX_PATTERNS) == [];
  }

  /** With no stations the outcome of a fetch plays no part. */
  lemma NoStationsNoFetch(view: PatternsView, a: Option<seq<TimeOfDayCount>>, b: Option<seq<TimeOfDayCount>>)
    ensures Refresh(view, 0, a) == Refresh(view, 0, b)
  {
  }
}
