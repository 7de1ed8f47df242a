/**
 * The module-level cache of historical detections: a `Map` from a key built
 * from the sorted station ids to the fetched detections, stamped with the
 * time they were stored and the time they expire (six hours later). Keys
 * keep their insertion order, as a JavaScript `Map` does.
 */
module HistoricalCache {
  import opened Model
  import opened Ranking

  /** Six hours, in milliseconds. */
  const CACHE_DURATION: int := 6 * 60 * 60 * 1000
  const KEY_PREFIX: string := "historical_"

  datatype CacheEntry = CacheEntry(data: seq<Detection>, timestamp: int, expiresAt: int)

  /** One line of `getCacheStatus`. */
  datatype CacheStatus = CacheStatus(key: string, expiresIn: int, dataCount: nat)

  /** `historical_` followed by the ascending station ids joined with `_`. */
  function CacheKey(ids: seq<string>): string {
    KEY_PREFIX + Join(SortStrings(ids), "_")
  }

  /** The key depends on which stations are tracked, not on the order they were added in. */
  lemma CacheKeyIgnoresOrder(a: seq<string>, b: seq<string>)
    requires multiset(a) == multiset(b)
    ensures CacheKey(a) == CacheKey(b)
  {
    SortStringsPermutationInvariant(a, b);
  }

  /** A single station's key is the prefix followed by its id. */
  lemma CacheKeyOfOne(id: string)
    ensures CacheKey([id]) == KEY_PREFIX + id
  {
    assert [id][1..] == [];
    assert SortStrings([id]) == InsertString(id, []) == [id];
  }

  /**
   * `stationIds.sort()` inside the key expression: the caller's array is
   * sorted in place, and the key is built from the sorted ids.
   */
  method MakeCacheKey(ids: array<string>) returns (key: string)
    modifies ids
    ensures ids[..] == SortStrings(old(ids[..]))
    ensures key == CacheKey(old(ids[..]))
  {
    var sorted := SortStrings(ids[..]);
    SortStringsLength(ids[..]);
    for i := 0 to ids.Length
      invariant ids[..i] == sorted[..i]
    {
      ids[i] := sorted[i];
    }
    assert ids[..] == sorted;
    key := KEY_PREFIX + Join(sorted, "_");
  }

  /** The cached data for `key` if it has not expired at `now` (`cached.expiresAt > now`). */
  function FreshData(entries: map<string, CacheEntry>, key: string, now: int): Option<seq<Detection>> {
    if key in entries && entries[key].expiresAt > now then Some(entries[key].data) else None
  }

  /** The entry stored on a miss. */
  function NewEntry(data: seq<Detection>, now: int): CacheEntry {
    CacheEntry(data, now, now + CACHE_DURATION)
  }

  /** Freshly stored data is served for exactly six hours, then fetched again. */
  lemma StoredDataServedForSixHours(entries: map<string, CacheEntry>, key: string, data: seq<Detection>, now: int, t: int)
    ensures FreshData(entries[key := NewEntry(data, now)], key, t)
      == if t < now + CACHE_DURATION then Some(data) else None
  {
  }

  /** Storing one key does not change what any other key serves. */
  lemma StoreLeavesOtherKeys(entries: map<string, CacheEntry>, key: string, other: string, e: CacheEntry, t: int)
    requires other != key
    ensures FreshData(entries[key := e], other, t) == FreshData(entries, other, t)
  {
  }

  /** The insertion-ordered key list after setting `key`. */
  function OrderAfterSet(order: seq<string>, key: string): (r: seq<string>)
    ensures Distinct(order) ==> Distinct(r)
    ensures forall k :: k in r <==> k in order || k == key
  {
    AddDistinct(order, key)
  }

  /** The `historicalDataCache` map. `order` is its key order. */
  class Cache {
    var order: seq<string>
    var entries: map<string, CacheEntry>

    ghost predicate Valid()
      reads this
    {
      Distinct(order) && forall k :: k in entries <==> k in order
    }

    constructor ()
      ensures Valid() && order == [] && entries == map[]
    {
      order := [];
      entries := map[];
    }

    /** `clearHistoricalCache`. */
    method Clear()
      modifies this
      ensures Valid() && order == [] && entries == map[]
    {
      order := [];
      entries := map[];
    }

    /** `historicalDataCache.set(key, e)`: a new key goes last, an existing key keeps its place. */
    method Set(key: string, e: CacheEntry)
      requires Valid()
      modifies this
      ensures Valid()
      ensures entries == old(entries)[key := e]
      ensures order == OrderAfterSet(old(order), key)
    {
      if key !in entries {
        order := order + [key];
      }
      entries := entries[key := e];
    }

    /**
     * The cache step of `processHighlights`: fresh data under `key` is used
     * as it is; otherwise `fetched`, the detections the paginated fetch
     * gathered, is stored with a six-hour lifetime and used. The fetch does
     * not throw: a page that fails ends it with what it has so far, which
     * may be nothing, and that is stored like any other result.
     */
    method GetOrFetch(key: string, now: int, fetched: seq<Detection>) returns (data: seq<Detection>)
      requires Valid()
      modifies this
      ensures Valid()
      ensures FreshData(old(entries), key, now).Some? ==>
        Some(data) == FreshData(old(entries), key, now) && entries == old(entries) && order == old(order)
      ensures FreshData(old(entries), key, now).None? ==>
        data == fetched && entries == old(entries)[key := NewEntry(fetched, now)]
        && order == OrderAfterSet(old(order), key)
    {
      if key in entries && entries[key].expiresAt > now {
        data := entries[key].data;
      } else {
        data := fetched;
        Set(key, NewEntry(fetched, now));
      }
    }

    /** `getCacheStatus`: one line per key, in key order. */
    method GetCacheStatus(now: int) returns (status: seq<CacheStatus>)
      requires Valid()
      ensures |status| == |order|
      ensures forall i :: 0 <= i < |order| ==>
        status[i] == CacheStatus(order[i], entries[order[i]].expiresAt - now, |entries[order[i]].data|)
    {
      status := [];
      for i := 0 to |order|
        invariant |status| == i
        invariant forall j :: 0 <= j < i ==>
          status[j] == CacheStatus(order[j], entries[order[j]].expiresAt - now, |entries[order[j]].data|)
      {
        var k := order[i];
        var value := entries[k];
        status := status + [CacheStatus(k, value.expiresAt - now, |value.data|)];
      }
    }
  }
}
