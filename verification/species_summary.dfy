/**
 * `processSpeciesSummary`: one row per species in a list of detections,
 * with its count, the span of its times of day, the stations it was heard
 * at, the first station id and the mean confidence; rows with the most
 * detections first. The clock formatter (`toLocaleTimeString`) is a
 * parameter.
 */
module SpeciesSummary {
  import opened Model
  import opened Ranking
  import opened Grouping
  import opened TimeWindow

  /**
   * The separator between the two times as the source file spells it: the
   * three characters that the UTF-8 bytes of an en dash turn into when read
   * as Windows-1252 text.
   */
  const SEPARATOR_AS_WRITTEN: string := "\U{00E2}\U{20AC}\U{201C}"
  const STATION_SEPARATOR: string := ", "

  /** A value of `speciesMap`: the species, its detections and its insertion-ordered station sets. */
  datatype Entry = Entry(species: Species, detections: seq<Detection>, stations: seq<string>, stationIds: seq<string>)

  /** One summary row. */
  datatype Row = Row(species: Species, count: nat, timeWindow: string, station: string, stationId: string, confidence: real)

  // ---------------------------------------------------------------------------
  // Stations seen by a group

  /** The station names of `g`, each once, in order of first appearance. */
  function StationNames(g: seq<Detection>): (r: seq<string>)
    ensures Distinct(r)
  {
    if g == [] then []
    else
      var d := g[|g| - 1];
      var rest := StationNames(g[..|g| - 1]);
      if d.station.Some? then AddDistinct(rest, d.station.value.name) else rest
  }

  /** The station ids of `g`, each once, in order of first appearance. */
  function StationIds(g: seq<Detection>): (r: seq<string>)
    ensures Distinct(r)
  {
    if g == [] then []
    else
      var d := g[|g| - 1];
      var rest := StationIds(g[..|g| - 1]);
      if d.station.Some? then AddDistinct(rest, d.station.value.id) else rest
  }

  /** The names listed are exactly those of the stations the group was heard at. */
  lemma {:induction false} StationNamesMembers(g: seq<Detection>, n: string)
    ensures n in StationNames(g) <==> exists i :: 0 <= i < |g| && g[i].station.Some? && g[i].station.value.name == n
  {
    if g != [] {
      var init := g[..|g| - 1];
      StationNamesMembers(init, n);
      assert forall i :: 0 <= i < |init| ==> init[i] == g[i];
      if n in StationNames(g) && n !in StationNames(init) {
        assert g[|g| - 1].station.Some? && g[|g| - 1].station.value.name == n;
      }
    }
  }

  /**
   * The first id listed is that of the first detection heard at a station;
   * no id is listed exactly when no detection has a station.
   */
  lemma {:induction false} FirstStationId(g: seq<Detection>)
    ensures StationIds(g) == [] <==> forall i :: 0 <= i < |g| ==> g[i].station.None?
    ensures StationIds(g) != [] ==> exists i :: (0 <= i < |g| && g[i].station.Some?
      && StationIds(g)[0] == g[i].station.value.id
      && forall j :: 0 <= j < i ==> g[j].station.None?)
  {
    if g != [] {
      var init := g[..|g| - 1];
      var d := g[|g| - 1];
      FirstStationId(init);
      assert forall i :: 0 <= i < |init| ==> init[i] == g[i];
      if StationIds(init) != [] {
        assert StationIds(init) <= StationIds(g);
        assert StationIds(g)[0] == StationIds(init)[0];
      }
    }
  }

  // ---------------------------------------------------------------------------
  // The grouping loop

  /** The entry created the first time a species is seen. */
  function FreshEntry(d: Detection): Entry {
    Entry(d.species, [], [], [])
  }

  /** The loop body: push the detection and add its station's name and id to the sets. */
  function Push(e: Entry, d: Detection): Entry {
    Entry(
      e.species,
      e.detections + [d],
      if d.station.Some? then AddDistinct(e.stations, d.station.value.name) else e.stations,
      if d.station.Some? then AddDistinct(e.stationIds, d.station.value.id) else e.stationIds)
  }

  /** The entry of a species whose detections are `g`. */
  function EntryOf(g: seq<Detection>): Entry
    requires g != []
  {
    Entry(g[0].species, g, StationNames(g), StationIds(g))
  }

  /** The entries of all non-empty groups. */
  function EntriesOf(groups: map<string, seq<Detection>>): map<string, Entry> {
    map id | id in groups && groups[id] != [] :: EntryOf(groups[id])
  }

  /** The loop body turns the entry of a group into the entry of the group extended by one. */
  lemma PushEntry(g: seq<Detection>, d: Detection)
    ensures Push(if g == [] then FreshEntry(d) else EntryOf(g), d) == EntryOf(g + [d])
  {
    var g' := g + [d];
    assert g'[..|g'| - 1] == g;
    if g == [] {
      assert g' == [d];
      assert StationNames(g') == (if d.station.Some? then [d.station.value.name] else []);
      assert StationIds(g') == (if d.station.Some? then [d.station.value.id] else []);
    } else {
      assert g'[0] == g[0];
    }
  }

  lemma EntriesUpdate(groups: map<string, seq<Detection>>, id: string, g: seq<Detection>)
    requires g != []
    ensures EntriesOf(groups[id := g]) == EntriesOf(groups)[id := EntryOf(g)]
  {
    var m1 := EntriesOf(groups[id := g]);
    var m2 := EntriesOf(groups)[id := EntryOf(g)];
    assert m1.Keys == m2.Keys;
  }

  /** One pass of the loop, over the prefix `ds[..i]`. */
  lemma CollectStep(ds: seq<Detection>, i: nat)
    requires i < |ds|
    ensures var d := ds[i];
      var m := EntriesOf(Groups(ds[..i]));
      && (d.species.id in m <==> d.species.id in SpeciesOrder(ds[..i]))
      && SpeciesOrder(ds[..i + 1]) == AddDistinct(SpeciesOrder(ds[..i]), d.species.id)
      && EntriesOf(Groups(ds[..i + 1]))
         == m[d.species.id := Push(if d.species.id in m then m[d.species.id] else FreshEntry(d), d)]
  {
    var d := ds[i];
    var id := d.species.id;
    var past := ds[..i];
    var g := GroupOf(past, id);
    assert ds[..i + 1] == past + [d];
    SpeciesOrderSnoc(past, d);
    GroupsSnoc(past, d);
    GroupNonEmpty(past, id);
    EntriesUpdate(Groups(past), id, g + [d]);
    PushEntry(g, d);
  }

  /** The `forEach` that fills `speciesMap`. */
  method CollectEntries(ds: seq<Detection>) returns (order: seq<string>, entries: map<string, Entry>)
    ensures order == SpeciesOrder(ds)
    ensures entries == EntriesOf(Groups(ds))
  {
    order := [];
    entries := map[];
    for i := 0 to |ds|
      invariant order == SpeciesOrder(ds[..i])
      invariant entries == EntriesOf(Groups(ds[..i]))
    {
      CollectStep(ds, i);
      var d := ds[i];
      var id := d.species.id;
      var e := if id in entries then entries[id] else FreshEntry(d);
      if id !in entries {
        order := order + [id];
      }
      entries := entries[id := Push(e, d)];
    }
    assert ds[..|ds|] == ds;
  }

  // ---------------------------------------------------------------------------
  // Rows

  /** The row of an entry, with `sep` between the two times. */
  function RowWith(e: Entry, fmt: int -> string, sep: string): Row
    requires e.detections != []
  {
    var sorted := SortDesc(e.detections, Lateness);
    var first := sorted[0];
    var last := sorted[|sorted| - 1];
    Row(
      e.species,
      |e.detections|,
      fmt(first.timestamp) + sep + fmt(last.timestamp),
      Join(e.stations, STATION_SEPARATOR),
      if e.stationIds == [] then "" else e.stationIds[0],
      SumConfidence(e.detections) / (|e.detections| as real))
  }

  /** The row as the source writes it, with the garbled separator. */
  function RowAsWritten(e: Entry, fmt: int -> string): Row
    requires e.detections != []
  {
    RowWith(e, fmt, SEPARATOR_AS_WRITTEN)
  }

  /** The row with the en dash that `getTimeWindow` writes. */
  function RowOf(e: Entry, fmt: int -> string): Row
    requires e.detections != []
  {
    RowWith(e, fmt, EN_DASH)
  }

  /** The window runs from the earliest to the latest time of day, even for a single detection. */
  lemma RowWindow(g: seq<Detection>, fmt: int -> string)
    requires g != []
    ensures RowOf(EntryOf(g), fmt).timeWindow == fmt(MinTs(g)) + EN_DASH + fmt(MaxTs(g))
  {
    EarliestAtMinTs(g);
    LastAtMaxTs(g);
  }

  /**
   * What a species' row says about its detections: the species of the
   * first one, how many there are, the earliest and latest time of day,
   * the distinct station names, the first station id or nothing, and the
   * mean confidence.
   */
  lemma RowMeaning(g: seq<Detection>, fmt: int -> string)
    requires g != []
    ensures var r := RowOf(EntryOf(g), fmt);
      && r.species == g[0].species
      && r.count == |g|
      && r.timeWindow == fmt(MinTs(g)) + EN_DASH + fmt(MaxTs(g))
      && r.station == Join(StationNames(g), STATION_SEPARATOR)
      && r.stationId == (if StationIds(g) == [] then "" else StationIds(g)[0])
      && r.confidence == MeanConfidence(g)
  {
    RowWindow(g, fmt);
  }

  /** The instants of a group. */
  function Instants(g: seq<Detection>): (r: seq<int>)
    ensures |r| == |g|
    ensures forall i :: 0 <= i < |g| ==> r[i] == g[i].timestamp
  {
    if g == [] then [] else [g[0].timestamp] + Instants(g[1..])
  }

  lemma MinMaxOfInstants(g: seq<Detection>)
    requires g != []
    ensures MinOf(Instants(g)) == MinTs(g) && MaxOf(Instants(g)) == MaxTs(g)
  {
    var ts := Instants(g);
    var i :| 0 <= i < |g| && g[i].timestamp == MinTs(g);
    var j :| 0 <= j < |g| && g[j].timestamp == MaxTs(g);
    MinOfUnique(ts, MinTs(g));
    MaxOfUnique(ts, MaxTs(g));
  }

  /**
   * With the en dash, a species heard two or more times gets the window
   * `getTimeWindow` gives for its instants (under the same formatter).
   */
  lemma RowWindowIsTimeWindow(g: seq<Detection>, fmt: int -> string)
    requires |g| >= 2
    ensures RowOf(EntryOf(g), fmt).timeWindow == GetTimeWindow(fmt, Instants(g))
  {
    RowWindow(g, fmt);
    MinMaxOfInstants(g);
  }

  /**
   * As written, the window of a species heard two or more times never
   * equals the one `getTimeWindow` gives: its separator is two characters
   * longer.
   */
  lemma AsWrittenWindowDiffers(g: seq<Detection>, fmt: int -> string)
    requires |g| >= 2
    ensures |RowAsWritten(EntryOf(g), fmt).timeWindow| == |GetTimeWindow(fmt, Instants(g))| + 2
    ensures RowAsWritten(EntryOf(g), fmt).timeWindow != GetTimeWindow(fmt, Instants(g))
  {
    RowWindowIsTimeWindow(g, fmt);
  }

  /** The rows of the species in `order`, in that order. */
  function RowsOf(ds: seq<Detection>, order: seq<string>, fmt: int -> string): (r: seq<Row>)
    requires AllHeard(ds, order)
    ensures |r| == |order|
  {
    if order == [] then []
    else
      AllHeardInit(ds, order);
      RowsOf(ds, order[..|order| - 1], fmt) + [RowOf(EntryOf(GroupOf(ds, order[|order| - 1])), fmt)]
  }

  function RowCount(r: Row): real {
    r.count as real
  }

  function RowSpecies(r: Row): string {
    r.species.id
  }

  /** `processSpeciesSummary`: the rows in key order, then a stable sort by count, largest first. */
  function SummaryOf(ds: seq<Detection>, fmt: int -> string): seq<Row> {
    SpeciesOrderHeard(ds);
    SortDesc(RowsOf(ds, SpeciesOrder(ds), fmt), RowCount)
  }

  lemma {:induction false} RowsOfMeaning(ds: seq<Detection>, order: seq<string>, fmt: int -> string)
    requires AllHeard(ds, order)
    ensures forall i :: 0 <= i < |order| ==>
      RowSpecies(RowsOf(ds, order, fmt)[i]) == order[i]
      && RowsOf(ds, order, fmt)[i] == RowOf(EntryOf(GroupOf(ds, order[i])), fmt)
  {
    forall i | 0 <= i < |order|
      ensures RowSpecies(RowsOf(ds, order, fmt)[i]) == order[i]
      ensures RowsOf(ds, order, fmt)[i] == RowOf(EntryOf(GroupOf(ds, order[i])), fmt)
    {
      RowsOfAt(ds, order, fmt, i);
      RowOfSpecies(ds, order[i], fmt);
    }
  }

  /** Position `i` of the rows is the row of the `i`-th species. */
  lemma {:induction false} RowsOfAt(ds: seq<Detection>, order: seq<string>, fmt: int -> string, i: nat)
    requires AllHeard(ds, order) && i < |order|
    ensures RowsOf(ds, order, fmt)[i] == RowOf(EntryOf(GroupOf(ds, order[i])), fmt)
  {
    if i < |order| - 1 {
      var init := order[..|order| - 1];
      AllHeardInit(ds, order);
      RowsOfAt(ds, init, fmt, i);
      assert init[i] == order[i];
    }
  }

  /** The row of a species' group is that species' row. */
  lemma RowOfSpecies(ds: seq<Detection>, id: string, fmt: int -> string)
    requires GroupOf(ds, id) != []
    ensures RowSpecies(RowOf(EntryOf(GroupOf(ds, id)), fmt)) == id
  {
    GroupOfMembers(ds, id);
    var g := GroupOf(ds, id);
    assert g[0] in g;
  }

  /** Summing over the rows is summing the group sizes over the keys. */
  lemma RowsOfCounts(ds: seq<Detection>, order: seq<string>, fmt: int -> string)
    requires AllHeard(ds, order)
    ensures SumOf(RowsOf(ds, order, fmt), (r: Row) => r.count) == SumOf(order, GroupSize(ds))
  {
    var rows := RowsOf(ds, order, fmt);
    forall i | 0 <= i < |rows| ensures rows[i].count == GroupSize(ds)(order[i]) {
      RowsOfAt(ds, order, fmt, i);
      RowCountIsSize(GroupOf(ds, order[i]), fmt);
    }
    SumOfPaired(rows, order, (r: Row) => r.count, GroupSize(ds));
  }

  /** A row counts the detections of its group. */
  lemma RowCountIsSize(g: seq<Detection>, fmt: int -> string)
    requires g != []
    ensures RowOf(EntryOf(g), fmt).count == |g|
  {
  }

  /** One row per species, most detections first, and the counts add up to the number of detections. */
  lemma SummaryShape(ds: seq<Detection>, fmt: int -> string)
    ensures var r := SummaryOf(ds, fmt);
      && |r| == |SpeciesOrder(ds)|
      && NonIncreasing(r, RowCount)
      && DistinctBy(r, RowSpecies)
      && SumOf(r, (row: Row) => row.count) == |ds|
  {
    var order := SpeciesOrder(ds);
    SpeciesOrderHeard(ds);
    var rows := RowsOf(ds, order, fmt);
    RowsOfMeaning(ds, order, fmt);
    assert DistinctBy(rows, RowSpecies);
    SortDescFacts(rows, RowCount);
    SortDescKeepsDistinct(rows, RowCount, RowSpecies);
    RowsOfCounts(ds, order, fmt);
    GroupsPartition(ds);
    SortDescKeepsSum(rows, RowCount, (row: Row) => row.count);
  }

  /** Every row is the row of a species that occurs, and every species that occurs has a row. */
  lemma SummaryRows(ds: seq<Detection>, fmt: int -> string, id: string)
    ensures forall row :: row in SummaryOf(ds, fmt) ==>
      GroupOf(ds, RowSpecies(row)) != [] && row == RowOf(EntryOf(GroupOf(ds, RowSpecies(row))), fmt)
    ensures GroupOf(ds, id) != [] ==> exists row :: row in SummaryOf(ds, fmt) && RowSpecies(row) == id
  {
    var order := SpeciesOrder(ds);
    SpeciesOrderHeard(ds);
    var rows := RowsOf(ds, order, fmt);
    var s := SummaryOf(ds, fmt);
    assert s == SortDesc(rows, RowCount);
    SortDescMembers(rows, RowCount);
    forall row | row in s
      ensures GroupOf(ds, RowSpecies(row)) != [] && row == RowOf(EntryOf(GroupOf(ds, RowSpecies(row))), fmt)
    {
      var k :| 0 <= k < |rows| && rows[k] == row;
      RowsOfAt(ds, order, fmt, k);
      RowOfSpecies(ds, order[k], fmt);
    }
    if GroupOf(ds, id) != [] {
      GroupNonEmpty(ds, id);
      var k :| 0 <= k < |order| && order[k] == id;
      RowsOfAt(ds, order, fmt, k);
      RowOfSpecies(ds, id, fmt);
      assert rows[k] in s;
    }
  }

  /** `processSpeciesSummary`: fill the species map, build one row per entry, sort by count. */
  method ProcessSpeciesSummary(ds: seq<Detection>, fmt: int -> string) returns (rows: seq<Row>)
    ensures rows == SummaryOf(ds, fmt)
  {
    var order, entries := CollectEntries(ds);
    SpeciesOrderHeard(ds);
    rows := [];
    for k := 0 to |order|
      invariant rows == RowsOf(ds, order[..k], fmt)
    {
      assert order[..k + 1][..k] == order[..k];
      GroupNonEmpty(ds, order[k]);
      rows := rows + [RowOf(entries[order[k]], fmt)];
    }
    assert order[..|order|] == order;
    rows := SortDesc(rows, RowCount);
  }
}
