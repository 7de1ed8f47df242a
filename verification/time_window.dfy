/**
 * `getTimeWindow`: the span of a list of instants as text, with the clock
 * formatter (`formatTime`, a 24-hour `toLocaleTimeString`) as a parameter.
 */
module TimeWindow {

  /** The en dash between the two ends of a window. */
  const EN_DASH: string := "\U{2013}"

  /** `Math.min(...times)`. */
  function MinOf(ts: seq<int>): (r: int)
    requires ts != []
    ensures forall i :: 0 <= i < |ts| ==> r <= ts[i]
    ensures exists i :: 0 <= i < |ts| && ts[i] == r
  {
    if |ts| == 1 then ts[0]
    else
      var m := MinOf(ts[1..]);
      assert forall i :: 1 <= i < |ts| ==> ts[1..][i - 1] == ts[i];
      if ts[0] < m then ts[0] else m
  }

  /** `Math.max(...times)`. */
  function MaxOf(ts: seq<int>): (r: int)
    requires ts != []
    ensures forall i :: 0 <= i < |ts| ==> ts[i] <= r
    ensures exists i :: 0 <= i < |ts| && ts[i] == r
  {
    if |ts| == 1 then ts[0]
    else
      var m := MaxOf(ts[1..]);
      assert forall i :: 1 <= i < |ts| ==> ts[1..][i - 1] == ts[i];
      if ts[0] > m then ts[0] else m
  }

  /** Nothing for no instants, one time for one, else the earliest and latest joined by an en dash. */
  function GetTimeWindow(fmt: int -> string, ts: seq<int>): string {
    if |ts| == 0 then ""
    else if |ts| == 1 then fmt(ts[0])
    else fmt(MinOf(ts)) + EN_DASH + fmt(MaxOf(ts))
  }

  /** A lower bound that is attained is the minimum. */
  lemma MinOfUnique(ts: seq<int>, m: int)
    requires ts != []
    requires forall i :: 0 <= i < |ts| ==> m <= ts[i]
    requires exists i :: 0 <= i < |ts| && ts[i] == m
    ensures MinOf(ts) == m
  {
    var i :| 0 <= i < |ts| && ts[i] == m;
    var j :| 0 <= j < |ts| && ts[j] == MinOf(ts);
    assert MinOf(ts) <= ts[i] && m <= ts[j];
  }

  /** An upper bound that is attained is the maximum. */
  lemma MaxOfUnique(ts: seq<int>, m: int)
    requires ts != []
    requires forall i :: 0 <= i < |ts| ==> ts[i] <= m
    requires exists i :: 0 <= i < |ts| && ts[i] == m
    ensures MaxOf(ts) == m
  {
    var i :| 0 <= i < |ts| && ts[i] == m;
    var j :| 0 <= j < |ts| && ts[j] == MaxOf(ts);
    assert ts[i] <= MaxOf(ts) && ts[j] <= m;
  }

  /** Two lists holding the same instants have the same minimum and maximum. */
  lemma ExtremesOfPermutation(a: seq<int>, b: seq<int>)
    requires a != [] && multiset(a) == multiset(b)
    ensures b != [] && MinOf(a) == MinOf(b) && MaxOf(a) == MaxOf(b)
  {
    assert |b| == |multiset(b)| == |multiset(a)| == |a|;
    forall x | x in b ensures x in a {
      assert x in multiset(b);
    }
    forall x | x in a ensures x in b {
      assert x in multiset(a);
    }
    var i :| 0 <= i < |a| && a[i] == MinOf(a);
    var j :| 0 <= j < |a| && a[j] == MaxOf(a);
    assert a[i] in b && a[j] in b;
    assert forall k :: 0 <= k < |b| ==> b[k] in a;
    MinOfUnique(b, MinOf(a));
    MaxOfUnique(b, MaxOf(a));
  }

  /** The window does not depend on the order of the instants. */
  lemma TimeWindowIgnoresOrder(fmt: int -> string, a: seq<int>, b: seq<int>)
    requires multiset(a) == multiset(b)
    ensures GetTimeWindow(fmt, a) == GetTimeWindow(fmt, b)
  {
    assert |a| == |multiset(a)| == |multiset(b)| == |b|;
    if |a| == 1 {
      assert a[0] in multiset(b);
      assert b == [b[0]];
    } else if |a| > 1 {
      ExtremesOfPermutation(a, b);
    }
  }
}
