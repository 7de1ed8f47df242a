/**
 * The tracked-station list shared by the dashboard: adding a station that
 * is already tracked changes nothing, removing drops every station with
 * the id, and both empty the historical cache. When the list changes, the
 * overview counts are reloaded, or reset when the list is empty.
 */
module StationContext {
  import opened Model
  import opened HistoricalCache

  /** The overview counts for the tracked stations. */
  datatype Counts = Counts(detections: int, species: int, stations: int, birdnet: Option<int>)

  const COUNTS_ERROR: string := "Failed to load station statistics"

  /** `stations.some(s => s.id === id)`. */
  predicate Tracks(stations: seq<Station>, id: string) {
    exists i :: 0 <= i < |stations| && stations[i].id == id
  }

  /** No two stations share an id. */
  predicate UniqueIds(stations: seq<Station>) {
    forall i, j :: 0 <= i < j < |stations| ==> stations[i].id != stations[j].id
  }

  /** The list `addStation` hands to the state: unchanged when the id is tracked, else the station appended. */
  function StationsAfterAdd(stations: seq<Station>, s: Station): seq<Station> {
    if Tracks(stations, s.id) then stations else stations + [s]
  }

  /** The list `removeStation` hands to the state: `filter(s => s.id !== id)`. */
  function StationsAfterRemove(stations: seq<Station>, id: string): (r: seq<Station>)
    ensures |r| <= |stations|
  {
    if stations == [] then []
    else
      var s := stations[|stations| - 1];
      StationsAfterRemove(stations[..|stations| - 1], id) + (if s.id == id then [] else [s])
  }

  /** After adding, the id is tracked, no id is repeated if none was, and nothing else moves. */
  lemma AddMeaning(stations: seq<Station>, s: Station)
    ensures var r := StationsAfterAdd(stations, s);
      && Tracks(r, s.id)
      && stations <= r
      && |r| <= |stations| + 1
      && (UniqueIds(stations) ==> UniqueIds(r))
      && (forall x :: x in r <==> x in stations || (x == s && !Tracks(stations, s.id)))
  {
    var r := StationsAfterAdd(stations, s);
    if !Tracks(stations, s.id) {
      assert r[|stations|] == s;
    }
  }

  /** Adding the same station twice is adding it once. */
  lemma AddIdempotent(stations: seq<Station>, s: Station)
    ensures StationsAfterAdd(StationsAfterAdd(stations, s), s) == StationsAfterAdd(stations, s)
  {
    AddMeaning(stations, s);
  }

  /** Removing keeps exactly the stations with another id. */
  lemma {:induction false} RemoveMembers(stations: seq<Station>, id: string)
    ensures forall x :: x in StationsAfterRemove(stations, id) <==> x in stations && x.id != id
  {
    if stations != [] {
      var init := stations[..|stations| - 1];
      RemoveMembers(init, id);
      assert stations == init + [stations[|stations| - 1]];
    }
  }

  /** A one-station list keeps its station exactly when the id differs. */
  lemma RemoveOne(s: Station, id: string)
    ensures StationsAfterRemove([s], id) == if s.id == id then [] else [s]
  {
    assert [s][..0] == [];
  }

  /**
   * Removing works piece by piece: the survivors of a concatenation are the
   * survivors of its first part followed by those of its second, so the
   * kept stations stay in their original order.
   */
  lemma {:induction false} RemoveConcat(a: seq<Station>, b: seq<Station>, id: string)
    ensures StationsAfterRemove(a + b, id) == StationsAfterRemove(a, id) + StationsAfterRemove(b, id)
  {
    if b == [] {
      assert a + b == a;
    } else {
      var init := b[..|b| - 1];
      RemoveConcat(a, init, id);
      assert (a + b)[..|a + b| - 1] == a + init;
      assert (a + b)[|a + b| - 1] == b[|b| - 1];
    }
  }

  /** Removing an id that is not tracked leaves the list as it is. */
  lemma {:induction false} RemoveUntracked(stations: seq<Station>, id: string)
    requires !Tracks(stations, id)
    ensures StationsAfterRemove(stations, id) == stations
  {
    if stations != [] {
      var init := stations[..|stations| - 1];
      assert !Tracks(init, id) by {
        forall i | 0 <= i < |init| ensures init[i].id != id {
          assert init[i] == stations[i];
        }
      }
      RemoveUntracked(init, id);
      assert stations[|stations| - 1].id != id;
      assert stations == init + [stations[|stations| - 1]];
    }
  }

  /** Removing a station that was just added restores the list. */
  lemma RemoveUndoesAdd(stations: seq<Station>, s: Station)
    requires !Tracks(stations, s.id)
    ensures StationsAfterRemove(StationsAfterAdd(stations, s), s.id) == stations
  {
    var r := stations + [s];
    assert r[..|r| - 1] == stations;
    RemoveUntracked(stations, s.id);
  }

  /** A list without repeated ids keeps that property when a station is removed. */
  lemma {:induction false} RemoveKeepsUnique(stations: seq<Station>, id: string)
    requires UniqueIds(stations)
    ensures UniqueIds(StationsAfterRemove(stations, id))
  {
    if stations != [] {
      var init := stations[..|stations| - 1];
      var last := stations[|stations| - 1];
      RemoveKeepsUnique(init, id);
      RemoveMembers(init, id);
      var rest := StationsAfterRemove(init, id);
      forall i | 0 <= i < |rest| ensures rest[i].id != last.id {
        assert rest[i] in init;
        var k :| 0 <= k < |init| && init[k] == rest[i];
        assert stations[k] == rest[i];
      }
    }
  }

  /** The provider's state: the list, the counts and their loading flag and error. */
  class StationProvider {
    var stations: seq<Station>
    var counts: Option<Counts>
    var isLoadingCounts: bool
    var error: Option<string>
    /** The data layer's historical cache, which both updates clear. */
    const cache: Cache

    constructor (cache: Cache)
      ensures this.cache == cache
      ensures stations == [] && counts == None && !isLoadingCounts && error == None
    {
      this.cache := cache;
      stations := [];
      counts := None;
      isLoadingCounts := false;
      error := None;
    }

    /** `addStation`: update the list, then clear the cache, whether or not the list changed. */
    method AddStation(s: Station)
      modifies this, cache
      ensures stations == StationsAfterAdd(old(stations), s)
      ensures counts == old(counts) && isLoadingCounts == old(isLoadingCounts) && error == old(error)
      ensures cache.Valid() && cache.entries == map[] && cache.order == []
    {
      stations := StationsAfterAdd(stations, s);
      cache.Clear();
    }

    /** `removeStation`: update the list, then clear the cache, whether or not the list changed. */
    method RemoveStation(id: string)
      modifies this, cache
      ensures stations == StationsAfterRemove(old(stations), id)
      ensures counts == old(counts) && isLoadingCounts == old(isLoadingCounts) && error == old(error)
      ensures cache.Valid() && cache.entries == map[] && cache.order == []
    {
      stations := StationsAfterRemove(stations, id);
      cache.Clear();
    }

    /**
     * The effect that runs when the list changes: an empty list resets the
     * counts, the loading flag and the error; otherwise loading starts and
     * the error is cleared.
     */
    method StationsChanged()
      modifies this
      ensures stations == old(stations)
      ensures stations == [] ==> counts == None && !isLoadingCounts && error == None
      ensures stations != [] ==> counts == old(counts) && isLoadingCounts && error == None
    {
      if |stations| > 0 {
        isLoadingCounts := true;
        error := None;
      } else {
        counts := None;
        isLoadingCounts := false;
        error := None;
      }
    }

    /**
     * The settling of `getCounts`: `Some(c)` when it resolves with `c`,
     * `None` when it rejects, which records the error and drops the counts.
     * Loading ends either way. `getCounts` catches its own request errors
     * and resolves with `null`, so a network failure arrives as
     * `Some(None)`; `None` is the effect's `catch` as written, which that
     * leaves unreachable.
     */
    method CountsSettled(outcome: Option<Option<Counts>>)
      modifies this
      ensures stations == old(stations) && !isLoadingCounts
      ensures outcome.Some? ==> counts == outcome.value && error == old(error)
      ensures outcome.None? ==> counts == None && error == Some(COUNTS_ERROR)
    {
      if outcome.Some? {
        counts := outcome.value;
      } else {
        error := Some(COUNTS_ERROR);
        counts := None;
      }
      isLoadingCounts := false;
    }
  }
}
