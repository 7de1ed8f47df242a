/**
 * The per-species history that the highlight pass builds from the cached
 * historical detections: for every species seen on an earlier day, its
 * first and last instants, how often it was detected and the running mean
 * of the confidences. Detections dated today are skipped.
 */
module SpeciesHistory {
  import opened Model
  import opened Grouping

  /** What the history map keeps per species. */
  datatype History = History(first: int, last: int, count: nat, avgConfidence: real)

  /** The historical detections that are not dated `today`, in input order. */
  function PastOf(hist: seq<Detection>, today: string): (r: seq<Detection>)
    ensures |r| <= |hist|
  {
    if hist == [] then []
    else
      var d := hist[|hist| - 1];
      PastOf(hist[..|hist| - 1], today) + (if d.day == today then [] else [d])
  }

  lemma {:induction false} PastOfMembers(hist: seq<Detection>, today: string)
    ensures forall d :: d in PastOf(hist, today) <==> d in hist && d.day != today
  {
    if hist != [] {
      var init := hist[..|hist| - 1];
      PastOfMembers(init, today);
      assert hist == init + [hist[|hist| - 1]];
    }
  }

  /** The summary of one species' earlier detections. */
  function Summary(g: seq<Detection>): History
    requires g != []
  {
    History(MinTs(g), MaxTs(g), |g|, MeanConfidence(g))
  }

  /** The summary of every non-empty group. */
  function Summarize(groups: map<string, seq<Detection>>): map<string, History> {
    map id | id in groups && groups[id] != [] :: Summary(groups[id])
  }

  /** The history map: every species with an earlier detection, and its summary. */
  function HistoryMap(past: seq<Detection>): map<string, History> {
    Summarize(Groups(past))
  }

  /** `speciesHistory.get(id)`. */
  function Lookup(h: map<string, History>, id: string): Option<History> {
    if id in h then Some(h[id]) else None
  }

  /**
   * One pass of the history loop: a species seen for the first time starts
   * at its own instant with count 0 and mean 0; then the count goes up, the
   * mean is updated as `(avg * (count - 1) + confidence) / count` with the
   * raised count (so `count - 1` is the count before the pass), and the
   * first and last instants move outwards.
   */
  function Absorb(e: Option<History>, d: Detection): (r: History) {
    var h := if e.Some? then e.value else History(d.timestamp, d.timestamp, 0, 0.0);
    var n := h.count + 1;
    History(
      if d.timestamp < h.first then d.timestamp else h.first,
      if d.timestamp > h.last then d.timestamp else h.last,
      n,
      (h.avgConfidence * (h.count as real) + d.confidence) / (n as real))
  }

  /** The running mean of `n` values, extended by one, is the mean of the `n + 1` values. */
  lemma RunningMean(sum: real, n: nat, c: real)
    requires n > 0
    ensures (sum / (n as real) * (n as real) + c) / ((n + 1) as real) == (sum + c) / ((n + 1) as real)
  {
    assert sum / (n as real) * (n as real) == sum;
  }

  lemma MeanSnoc(g: seq<Detection>, d: Detection)
    requires g != []
    ensures (MeanConfidence(g) * (|g| as real) + d.confidence) / ((|g| + 1) as real) == MeanConfidence(g + [d])
  {
    var g' := g + [d];
    assert g'[..|g'| - 1] == g;
    assert SumConfidence(g') == SumConfidence(g) + d.confidence;
    RunningMean(SumConfidence(g), |g|, d.confidence);
  }

  lemma BoundsSnoc(g: seq<Detection>, d: Detection)
    requires g != []
    ensures MinTs(g + [d]) == if d.timestamp < MinTs(g) then d.timestamp else MinTs(g)
    ensures MaxTs(g + [d]) == if d.timestamp > MaxTs(g) then d.timestamp else MaxTs(g)
  {
    var g' := g + [d];
    assert g'[..|g'| - 1] == g;
  }

  /** A species met for the first time gets the summary of its one detection. */
  lemma AbsorbFirst(d: Detection)
    ensures Absorb(None, d) == Summary([d])
  {
    assert [d][..0] == [];
    assert SumConfidence([d]) == d.confidence;
  }

  lemma AbsorbMean(g: seq<Detection>, d: Detection)
    requires g != []
    ensures Absorb(Some(Summary(g)), d).avgConfidence == MeanConfidence(g + [d])
  {
    assert Absorb(Some(Summary(g)), d).avgConfidence
      == (MeanConfidence(g) * (|g| as real) + d.confidence) / ((|g| + 1) as real);
    MeanSnoc(g, d);
  }

  /** A species met again: the summary of its group extended by the detection. */
  lemma AbsorbNext(g: seq<Detection>, d: Detection)
    requires g != []
    ensures Absorb(Some(Summary(g)), d) == Summary(g + [d])
  {
    var a := Absorb(Some(Summary(g)), d);
    var t := Summary(g + [d]);
    BoundsSnoc(g, d);
    AbsorbMean(g, d);
    assert a.first == t.first && a.last == t.last && a.count == t.count && a.avgConfidence == t.avgConfidence;
  }

  /** The loop's update turns the summary of a group into the summary of the group extended by one. */
  lemma AbsorbSummary(g: seq<Detection>, d: Detection)
    ensures Absorb(if g == [] then None else Some(Summary(g)), d) == Summary(g + [d])
  {
    if g == [] {
      assert g + [d] == [d];
      AbsorbFirst(d);
    } else {
      AbsorbNext(g, d);
    }
  }

  /** Replacing one group by a non-empty one replaces its summary and no other. */
  lemma SummarizeUpdate(groups: map<string, seq<Detection>>, id: string, g: seq<Detection>)
    requires g != []
    ensures Summarize(groups[id := g]) == Summarize(groups)[id := Summary(g)]
  {
    var m1 := Summarize(groups[id := g]);
    var m2 := Summarize(groups)[id := Summary(g)];
    assert m1.Keys == m2.Keys;
  }

  /** An earlier detection updates its own species' entry and no other. */
  lemma HistorySnoc(past: seq<Detection>, d: Detection)
    ensures var m := HistoryMap(past);
      HistoryMap(past + [d]) == m[d.species.id := Absorb(Lookup(m, d.species.id), d)]
  {
    var id := d.species.id;
    var g := GroupOf(past, id);
    GroupsSnoc(past, d);
    SummarizeUpdate(Groups(past), id, g + [d]);
    GroupNonEmpty(past, id);
    assert Lookup(HistoryMap(past), id) == if g == [] then None else Some(Summary(g));
    AbsorbSummary(g, d);
  }

  /** One pass of the loop, over the prefix `hist[..i]`. */
  lemma HistoryStep(hist: seq<Detection>, today: string, i: nat)
    requires i < |hist|
    ensures var d := hist[i];
      var m := HistoryMap(PastOf(hist[..i], today));
      HistoryMap(PastOf(hist[..i + 1], today))
        == if d.day == today then m else m[d.species.id := Absorb(Lookup(m, d.species.id), d)]
  {
    var d := hist[i];
    assert hist[..i + 1][..i] == hist[..i];
    assert PastOf(hist[..i + 1], today) == PastOf(hist[..i], today) + (if d.day == today then [] else [d]);
    if d.day != today {
      HistorySnoc(PastOf(hist[..i], today), d);
    } else {
      assert PastOf(hist[..i + 1], today) == PastOf(hist[..i], today);
    }
  }

  /**
   * The `forEach` over the historical detections that fills the history
   * map, skipping those dated today.
   */
  method BuildSpeciesHistory(hist: seq<Detection>, today: string) returns (h: map<string, History>)
    ensures h == HistoryMap(PastOf(hist, today))
  {
    h := map[];
    for i := 0 to |hist|
      invariant h == HistoryMap(PastOf(hist[..i], today))
    {
      HistoryStep(hist, today, i);
      var d := hist[i];
      if d.day == today {
        continue;
      }
      var id := d.species.id;
      h := h[id := Absorb(Lookup(h, id), d)];
    }
    assert hist[..|hist|] == hist;
  }

  /**
   * What the history says about a species: it is present exactly when the
   * species was detected on a day other than today, and then its count,
   * bounds and mean are those of exactly those detections.
   */
  lemma HistoryMeaning(hist: seq<Detection>, today: string, id: string)
    ensures var g := GroupOf(PastOf(hist, today), id);
      && (id in HistoryMap(PastOf(hist, today)) <==> g != [])
      && (id in HistoryMap(PastOf(hist, today)) ==>
            var e := HistoryMap(PastOf(hist, today))[id];
            && e.count == |g|
            && e.avgConfidence == MeanConfidence(g)
            && (forall d :: d in g ==> e.first <= d.timestamp <= e.last)
            && (exists d :: d in g && d.timestamp == e.first)
            && (exists d :: d in g && d.timestamp == e.last))
    ensures forall d :: d in GroupOf(PastOf(hist, today), id) <==> d in hist && d.day != today && d.species.id == id
  {
    var past := PastOf(hist, today);
    var g := GroupOf(past, id);
    GroupNonEmpty(past, id);
    GroupOfMembers(past, id);
    PastOfMembers(hist, today);
    if g != [] {
      var e := HistoryMap(past)[id];
      assert e == Summary(g);
      var i :| 0 <= i < |g| && g[i].timestamp == e.first;
      var j :| 0 <= j < |g| && g[j].timestamp == e.last;
      assert g[i] in g && g[j] in g;
    }
  }

  /** Every earlier detection is counted once: the counts add up to the number of earlier detections. */
  lemma HistoryCountsPartition(hist: seq<Detection>, today: string)
    ensures var past := PastOf(hist, today);
      SumOf(SpeciesOrder(past), id => if id in HistoryMap(past) then HistoryMap(past)[id].count else 0) == |past|
  {
    var past := PastOf(hist, today);
    var f := id => if id in HistoryMap(past) then HistoryMap(past)[id].count else 0;
    GroupsPartition(past);
    forall i | 0 <= i < |SpeciesOrder(past)| ensures f(SpeciesOrder(past)[i]) == GroupSize(past)(SpeciesOrder(past)[i]) {
      GroupNonEmpty(past, SpeciesOrder(past)[i]);
    }
    SumOfPaired(SpeciesOrder(past), SpeciesOrder(past), f, GroupSize(past));
  }
}
