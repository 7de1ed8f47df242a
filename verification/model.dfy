/** The records the dashboard receives from the bird-detection service. */
module Model {

  datatype Option<+T> = None | Some(value: T)

  /** A species; identity is by `id`, `commonName` is only matched as text. */
  datatype Species = Species(id: string, commonName: string)

  /** The station a detection was heard at. */
  datatype StationRef = StationRef(id: string, name: string)

  /**
   * One detection. `timestamp` is the instant its ISO-8601 text denotes, in
   * milliseconds; `day` is that text up to its `T` (the calendar date as written).
   */
  datatype Detection = Detection(
    id: string,
    timestamp: int,
    day: string,
    confidence: real,
    score: real,
    species: Species,
    station: Option<StationRef>)

  /** A station the user tracks. */
  datatype Station = Station(id: string, name: string)

  function SpeciesId(d: Detection): string { d.species.id }

  function Confidence(d: Detection): real { d.confidence }

  /** The first `n` elements of `s` (JavaScript's `slice(0, n)`). */
  function Take<T>(s: seq<T>, n: nat): (r: seq<T>)
    ensures |r| == if |s| < n then |s| else n
    ensures r <= s
  {
    if |s| <= n then s else s[..n]
  }

  /** `Array.prototype.join`: the parts with `sep` between neighbours. */
  function Join(parts: seq<string>, sep: string): string {
    if parts == [] then ""
    else if |parts| == 1 then parts[0]
    else parts[0] + sep + Join(parts[1..], sep)
  }

  /** Appends `x` unless it is already present: a JavaScript `Set.add` on an insertion-ordered set. */
  function AddDistinct(s: seq<string>, x: string): (r: seq<string>)
    ensures x in r
    ensures forall y :: y in r <==> y in s || y == x
    ensures Distinct(s) ==> Distinct(r)
    ensures s <= r
  {
    if x in s then s else s + [x]
  }

  predicate Distinct<T(==)>(s: seq<T>) {
    forall i, j :: 0 <= i < j < |s| ==> s[i] != s[j]
  }

  /** Sum of `f` over `s`, from the left. */
  function SumOf<T>(s: seq<T>, f: T -> int): int {
    if s == [] then 0 else f(s[0]) + SumOf(s[1..], f)
  }

  /** Appending an element adds its value to the sum. */
  lemma {:induction false} SumOfSnoc<T>(s: seq<T>, x: T, f: T -> int)
    ensures SumOf(s + [x], f) == SumOf(s, f) + f(x)
  {
    if s == [] {
      assert [x][1..] == [];
    } else {
      assert (s + [x])[1..] == s[1..] + [x];
      SumOfSnoc(s[1..], x, f);
    }
  }

  /** Two lists whose values agree position by position have the same sum. */
  lemma {:induction false} SumOfPaired<A, B>(a: seq<A>, b: seq<B>, f: A -> int, g: B -> int)
    requires |a| == |b|
    requires forall i :: 0 <= i < |a| ==> f(a[i]) == g(b[i])
    ensures SumOf(a, f) == SumOf(b, g)
  {
    if a != [] {
      assert forall i :: 0 <= i < |a| - 1 ==> a[1..][i] == a[i + 1] && b[1..][i] == b[i + 1];
      SumOfPaired(a[1..], b[1..], f, g);
    }
  }

  /** Sum of the confidences, accumulated from the end so that appending unfolds once. */
  function SumConfidence(s: seq<Detection>): real {
    if s == [] then 0.0 else SumConfidence(s[..|s| - 1]) + s[|s| - 1].confidence
  }

  /** Arithmetic mean of the confidences of a non-empty list. */
  function MeanConfidence(s: seq<Detection>): real
    requires s != []
  {
    SumConfidence(s) / (|s| as real)
  }
}
