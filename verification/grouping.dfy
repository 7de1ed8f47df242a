/**
 * Grouping of detections by species, as the data layer does it with a
 * `Map<speciesId, Detection[]>`: keys in order of first appearance, each
 * group in input order. Also the per-group facts the consumers read: the
 * earliest detection (after a stable sort by time), the first and last
 * instants, and the group sizes, which add up to the whole input.
 */
module Grouping {
  import opened Model
  import opened Ranking

  /** Species ids in order of first appearance: the key order of the grouping map. */
  function SpeciesOrder(ds: seq<Detection>): (r: seq<string>)
    ensures Distinct(r)
  {
    if ds == [] then [] else AddDistinct(SpeciesOrder(ds[..|ds| - 1]), ds[|ds| - 1].species.id)
  }

  /** The keys are exactly the species that occur. */
  lemma {:induction false} SpeciesOrderMembers(ds: seq<Detection>, id: string)
    ensures id in SpeciesOrder(ds) <==> exists i :: 0 <= i < |ds| && ds[i].species.id == id
  {
    if ds != [] {
      var init := ds[..|ds| - 1];
      SpeciesOrderMembers(init, id);
      assert forall i :: 0 <= i < |init| ==> init[i] == ds[i];
    }
  }

  /** The detections of one species, in input order. */
  function GroupOf(ds: seq<Detection>, id: string): (r: seq<Detection>)
    ensures |r| <= |ds|
  {
    if ds == [] then []
    else GroupOf(ds[..|ds| - 1], id) + (if ds[|ds| - 1].species.id == id then [ds[|ds| - 1]] else [])
  }

  /** A group holds exactly the detections of its species. */
  lemma {:induction false} GroupOfMembers(ds: seq<Detection>, id: string)
    ensures forall d :: d in GroupOf(ds, id) <==> d in ds && d.species.id == id
  {
    if ds != [] {
      var init := ds[..|ds| - 1];
      GroupOfMembers(init, id);
      assert ds == init + [ds[|ds| - 1]];
    }
  }

  /** A species has detections exactly when it is one of the grouping keys. */
  lemma GroupNonEmpty(ds: seq<Detection>, id: string)
    ensures GroupOf(ds, id) != [] <==> id in SpeciesOrder(ds)
  {
    SpeciesOrderMembers(ds, id);
    GroupOfMembers(ds, id);
    if id in SpeciesOrder(ds) {
      var i :| 0 <= i < |ds| && ds[i].species.id == id;
      assert ds[i] in GroupOf(ds, id);
    }
  }

  /** Appending one detection extends only its own species' group. */
  lemma GroupOfSnoc(ds: seq<Detection>, d: Detection, id: string)
    ensures GroupOf(ds + [d], id) == GroupOf(ds, id) + (if d.species.id == id then [d] else [])
  {
    assert (ds + [d])[..|ds + [d]| - 1] == ds;
  }

  /** Appending one detection adds its species at the end, unless it is already a key. */
  lemma SpeciesOrderSnoc(ds: seq<Detection>, d: Detection)
    ensures SpeciesOrder(ds + [d]) == AddDistinct(SpeciesOrder(ds), d.species.id)
  {
    assert (ds + [d])[..|ds + [d]| - 1] == ds;
  }

  /** Every id of `order` has detections. */
  predicate AllHeard(ds: seq<Detection>, order: seq<string>) {
    forall i :: 0 <= i < |order| ==> GroupOf(ds, order[i]) != []
  }

  lemma AllHeardInit(ds: seq<Detection>, order: seq<string>)
    requires AllHeard(ds, order) && order != []
    ensures AllHeard(ds, order[..|order| - 1])
  {
    var init := order[..|order| - 1];
    forall i | 0 <= i < |init| ensures GroupOf(ds, init[i]) != [] {
      assert init[i] == order[i];
    }
  }

  /** Every key has detections. */
  lemma SpeciesOrderHeard(ds: seq<Detection>)
    ensures AllHeard(ds, SpeciesOrder(ds))
  {
    var order := SpeciesOrder(ds);
    forall i | 0 <= i < |order| ensures GroupOf(ds, order[i]) != [] {
      GroupNonEmpty(ds, order[i]);
    }
  }

  // ---------------------------------------------------------------------------
  // The groups partition the input

  /** The size of each species' group. */
  function GroupSize(ds: seq<Detection>): string -> int {
    id => |GroupOf(ds, id)|
  }

  /** Raising `f` by one at a single key of a list without repeats raises the sum by one. */
  lemma {:induction false} SumOfBump(s: seq<string>, x: string, f: string -> int, g: string -> int)
    requires Distinct(s) && x in s
    requires g(x) == f(x) + 1
    requires forall i :: 0 <= i < |s| && s[i] != x ==> f(s[i]) == g(s[i])
    ensures SumOf(s, g) == SumOf(s, f) + 1
  {
    if s[0] == x {
      assert forall i :: 0 <= i < |s[1..]| ==> s[1..][i] != x;
      SumOfPaired(s[1..], s[1..], f, g);
    } else {
      SumOfBump(s[1..], x, f, g);
    }
  }

  /** Every detection lands in exactly one group: the group sizes add up to the input size. */
  lemma {:induction false} GroupsPartition(ds: seq<Detection>)
    ensures SumOf(SpeciesOrder(ds), GroupSize(ds)) == |ds|
  {
    if ds != [] {
      var init := ds[..|ds| - 1];
      var d := ds[|ds| - 1];
      var id := d.species.id;
      assert ds == init + [d];
      GroupsPartition(init);
      SpeciesOrderSnoc(init, d);
      var order := SpeciesOrder(init);
      forall y ensures GroupOf(ds, y) == GroupOf(init, y) + (if id == y then [d] else []) {
        GroupOfSnoc(init, d, y);
      }
      if id in order {
        SumOfBump(order, id, GroupSize(init), GroupSize(ds));
      } else {
        GroupNonEmpty(init, id);
        SumOfPaired(order, order, GroupSize(init), GroupSize(ds));
        SumOfSnoc(order, id, GroupSize(ds));
      }
    }
  }

  // ---------------------------------------------------------------------------
  // The grouping loop

  /** The grouping map: each species seen, with its detections. */
  function Groups(ds: seq<Detection>): (r: map<string, seq<Detection>>)
    ensures forall id :: id in r <==> id in SpeciesOrder(ds)
    ensures forall id :: id in r ==> r[id] == GroupOf(ds, id)
  {
    map id | id in SpeciesOrder(ds) :: GroupOf(ds, id)
  }

  /** One more detection is pushed onto its species' group, which starts out empty. */
  lemma GroupsSnoc(ds: seq<Detection>, d: Detection)
    ensures Groups(ds + [d]) == Groups(ds)[d.species.id := GroupOf(ds, d.species.id) + [d]]
  {
    var id := d.species.id;
    var m1 := Groups(ds + [d]);
    var m2 := Groups(ds)[id := GroupOf(ds, id) + [d]];
    SpeciesOrderSnoc(ds, d);
    assert forall y :: y in m1 <==> y in m2;
    forall y | y in m1 ensures m1[y] == m2[y] {
      GroupOfSnoc(ds, d, y);
    }
  }

  /** One pass of the grouping loop, over the prefix `ds[..i]`. */
  lemma GroupByStep(ds: seq<Detection>, i: nat)
    requires i < |ds|
    ensures var id := ds[i].species.id;
      var m := Groups(ds[..i]);
      && (id in m <==> id in SpeciesOrder(ds[..i]))
      && SpeciesOrder(ds[..i + 1]) == (if id in m then SpeciesOrder(ds[..i]) else SpeciesOrder(ds[..i]) + [id])
      && Groups(ds[..i + 1]) == m[id := (if id in m then m[id] else []) + [ds[i]]]
  {
    var d := ds[i];
    assert ds[..i + 1] == ds[..i] + [d];
    SpeciesOrderSnoc(ds[..i], d);
    GroupsSnoc(ds[..i], d);
    GroupNonEmpty(ds[..i], d.species.id);
  }

  /**
   * The `forEach` that fills the grouping map: creates an empty group the
   * first time a species is seen, then pushes the detection onto it.
   */
  method GroupBySpecies(ds: seq<Detection>) returns (order: seq<string>, groups: map<string, seq<Detection>>)
    ensures order == SpeciesOrder(ds)
    ensures groups == Groups(ds)
  {
    order := [];
    groups := map[];
    for i := 0 to |ds|
      invariant order == SpeciesOrder(ds[..i])
      invariant groups == Groups(ds[..i])
    {
      GroupByStep(ds, i);
      var d := ds[i];
      var id := d.species.id;
      ghost var before := groups;
      if id !in groups {
        order := order + [id];
        groups := groups[id := []];
      }
      ghost var g := if id in before then before[id] else [];
      assert groups[id] == g;
      groups := groups[id := groups[id] + [d]];
      assert groups == before[id := g + [d]];
    }
    assert ds[..|ds|] == ds;
  }

  // ---------------------------------------------------------------------------
  // Per-group facts

  /** Sort key of `sort((a, b) => time(a) - time(b))`, written as a descending key. */
  function Lateness(d: Detection): real {
    -(d.timestamp as real)
  }

  /** `sorted[0]` after the stable sort by time: the representative detection of a group. */
  function Earliest(g: seq<Detection>): (r: Detection)
    requires g != []
  {
    SortDesc(g, Lateness)[0]
  }

  /** The representative is the first detection, in input order, among those at the earliest instant. */
  lemma EarliestIsFirstArrival(g: seq<Detection>)
    requires g != []
    ensures exists i :: (0 <= i < |g| && g[i] == Earliest(g)
      && (forall j :: 0 <= j < |g| ==> g[i].timestamp <= g[j].timestamp)
      && (forall j :: 0 <= j < i ==> g[j].timestamp > g[i].timestamp))
  {
    SortDescHead(g, Lateness);
    var i := FirstMaxIndex(g, Lateness);
    assert forall j :: 0 <= j < |g| ==> Lateness(g[j]) <= Lateness(g[i]);
  }

  /** The earliest instant of a group. */
  function MinTs(g: seq<Detection>): (r: int)
    requires g != []
    ensures forall i :: 0 <= i < |g| ==> r <= g[i].timestamp
    ensures exists i :: 0 <= i < |g| && g[i].timestamp == r
  {
    if |g| == 1 then g[0].timestamp
    else
      var m := MinTs(g[..|g| - 1]);
      var t := g[|g| - 1].timestamp;
      assert forall i :: 0 <= i < |g| - 1 ==> g[..|g| - 1][i] == g[i];
      if t < m then t else m
  }

  /** The latest instant of a group. */
  function MaxTs(g: seq<Detection>): (r: int)
    requires g != []
    ensures forall i :: 0 <= i < |g| ==> g[i].timestamp <= r
    ensures exists i :: 0 <= i < |g| && g[i].timestamp == r
  {
    if |g| == 1 then g[0].timestamp
    else
      var m := MaxTs(g[..|g| - 1]);
      var t := g[|g| - 1].timestamp;
      assert forall i :: 0 <= i < |g| - 1 ==> g[..|g| - 1][i] == g[i];
      if t > m then t else m
  }

  /** The representative is at the earliest instant. */
  lemma EarliestAtMinTs(g: seq<Detection>)
    requires g != []
    ensures Earliest(g).timestamp == MinTs(g)
  {
    EarliestIsFirstArrival(g);
    var i :| 0 <= i < |g| && g[i] == Earliest(g) && forall j :: 0 <= j < |g| ==> g[i].timestamp <= g[j].timestamp;
    var k :| 0 <= k < |g| && g[k].timestamp == MinTs(g);
    assert g[i].timestamp <= g[k].timestamp;
  }

  /** The last detection after the sort by time is at the latest instant. */
  lemma LastAtMaxTs(g: seq<Detection>)
    requires g != []
    ensures SortDesc(g, Lateness)[|g| - 1].timestamp == MaxTs(g)
  {
    var t := SortDesc(g, Lateness);
    SortDescLast(g, Lateness);
    var n :| 0 <= n < |g| && g[n] == t[|g| - 1];
    var k :| 0 <= k < |g| && g[k].timestamp == MaxTs(g);
    LaterIsLessLate(g[n], g[k]);
    assert g[n].timestamp <= MaxTs(g);
  }

  /** A lower lateness is a later instant. */
  lemma LaterIsLessLate(a: Detection, b: Detection)
    requires Lateness(a) <= Lateness(b)
    ensures b.timestamp <= a.timestamp
  {
  }
}
