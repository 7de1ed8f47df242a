/**
 * The live card: each detection pushed by the subscription is shown at the
 * head of a list of at most five; the connection light follows the
 * subscription; with no stations a fixed sample list is shown.
 */
module NowPlayingCard {
  import opened Model

  const MAX_LIVE: nat := 5
  const MINUTE_MS: int := 60 * 1000
  const UNKNOWN_STATION: StationRef := StationRef("unknown", "Unknown Station")

  /** A detection as the card shows it; `time` is its formatted time of day. */
  datatype LiveDetection = LiveDetection(
    id: string, species: Species, station: StationRef, time: string, confidence: real, timestamp: int)

  /** The card's view of one detection; a detection without a station is shown at the unknown station. */
  function ToLive(d: Detection, fmt: int -> string): LiveDetection {
    LiveDetection(
      d.id, d.species,
      if d.station.Some? then d.station.value else UNKNOWN_STATION,
      fmt(d.timestamp), d.confidence, d.timestamp)
  }

  /** Everything but the station is copied; the station is the detection's own or the unknown one. */
  lemma ToLiveMeaning(d: Detection, fmt: int -> string)
    ensures var l := ToLive(d, fmt);
      && l.id == d.id && l.species == d.species && l.confidence == d.confidence
      && l.timestamp == d.timestamp && l.time == fmt(d.timestamp)
      && (l.station == UNKNOWN_STATION <==> d.station.None? || d.station == Some(UNKNOWN_STATION))
      && (d.station.Some? ==> l.station == d.station.value)
  {
  }

  /** The connection light: off without stations or on a subscription error, on otherwise. */
  function ConnectionStatus(stationCount: nat, fetching: bool, hasError: bool): bool {
    if stationCount == 0 then false
    else if fetching then true
    else if hasError then false
    else true
  }

  /** The light is on exactly when there are stations and the subscription is fetching or has no error. */
  lemma ConnectionStatusMeaning(stationCount: nat, fetching: bool, hasError: bool)
    ensures ConnectionStatus(stationCount, fetching, hasError) <==> stationCount > 0 && (fetching || !hasError)
  {
  }

  /** The three sample detections shown when no station is tracked, stamped relative to `now`. */
  function MockDetections(now: int): (r: seq<LiveDetection>)
    ensures |r| == 3
  {
    [
      LiveDetection("1", Species("1", "House Finch"), StationRef("123", "Station-123"), "14:32", 0.89, now),
      LiveDetection("2", Species("2", "American Goldfinch"), StationRef("456", "Station-456"), "14:28", 0.92, now - 4 * MINUTE_MS),
      LiveDetection("3", Species("3", "Chickadee"), StationRef("789", "Station-789"), "14:25", 0.87, now - 7 * MINUTE_MS)
    ]
  }

  /** The card's state: the shown detections and the connection light. */
  class LiveFeed {
    var detections: seq<LiveDetection>
    var isConnected: bool

    /** The list never holds more than five detections. */
    predicate Valid()
      reads this
    {
      |detections| <= MAX_LIVE
    }

    constructor ()
      ensures Valid() && detections == [] && !isConnected
    {
      detections := [];
      isConnected := false;
    }

    /** `setDetections(prev => [live, ...prev.slice(0, 4)])`. */
    method Push(d: Detection, fmt: int -> string)
      modifies this
      ensures Valid()
      ensures detections == [ToLive(d, fmt)] + Take(old(detections), MAX_LIVE - 1)
      ensures isConnected == old(isConnected)
    {
      detections := [ToLive(d, fmt)] + Take(detections, MAX_LIVE - 1);
    }

    /** The connection effect. */
    method UpdateConnection(stationCount: nat, fetching: bool, hasError: bool)
      modifies this
      ensures isConnected == ConnectionStatus(stationCount, fetching, hasError)
      ensures detections == old(detections)
    {
      if stationCount == 0 {
        isConnected := false;
        return;
      }
      if fetching {
        isConnected := true;
      } else if hasError {
        isConnected := false;
      } else {
        isConnected := true;
      }
    }

    /** The sample-data effect: with no stations the sample list is shown and the light is off. */
    method ShowSamplesWhenEmpty(stationCount: nat, now: int)
      requires Valid()
      modifies this
      ensures Valid()
      ensures stationCount == 0 ==> detections == MockDetections(now) && !isConnected
      ensures stationCount > 0 ==> detections == old(detections) && isConnected == old(isConnected)
    {
      if stationCount == 0 {
        detections := MockDetections(now);
        isConnected := false;
      }
    }
  }

  /** The list after pushing `ds` in turn onto `prev`: the newest first. */
  function Feed(prev: seq<LiveDetection>, ds: seq<Detection>, fmt: int -> string): (r: seq<LiveDetection>)
    ensures ds != [] ==> |r| <= MAX_LIVE
  {
    if ds == [] then prev
    else [ToLive(ds[|ds| - 1], fmt)] + Take(Feed(prev, ds[..|ds| - 1], fmt), MAX_LIVE - 1)
  }

  /** Position `i` of the list shows the `i`-th newest of `ds`. */
  predicate ShowsNewest(r: seq<LiveDetection>, ds: seq<Detection>, fmt: int -> string, i: nat)
    requires i < |ds|
  {
    i < |r| && r[i] == ToLive(ds[|ds| - 1 - i], fmt)
  }

  /** The list starts with the newest five pushed detections (or all of them, if fewer), newest first. */
  lemma {:induction false} FeedKeepsNewest(prev: seq<LiveDetection>, ds: seq<Detection>, fmt: int -> string)
    ensures forall i :: 0 <= i < |ds| && i < MAX_LIVE ==> ShowsNewest(Feed(prev, ds, fmt), ds, fmt, i)
  {
    if ds != [] {
      var init := ds[..|ds| - 1];
      FeedKeepsNewest(prev, init, fmt);
      var r := Feed(prev, ds, fmt);
      var rest := Feed(prev, init, fmt);
      forall i | 0 <= i < |ds| && i < MAX_LIVE ensures ShowsNewest(r, ds, fmt, i) {
        if i > 0 {
          assert ShowsNewest(rest, init, fmt, i - 1);
          assert r[i] == Take(rest, MAX_LIVE - 1)[i - 1];
          assert init[|init| - 1 - (i - 1)] == ds[|ds| - 1 - i];
        }
      }
    }
  }
}
