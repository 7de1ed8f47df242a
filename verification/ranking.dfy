/**
 * The two orderings the data layer relies on: JavaScript's stable
 * `sort((a, b) => key(b) - key(a))` (largest key first, ties kept in input
 * order) and the default `sort()` of a list of strings (ascending code-point
 * order), which builds the cache key.
 */
module Ranking {
  import opened Model

  // ---------------------------------------------------------------------------
  // Stable sort by a descending key

  predicate NonIncreasing<T>(s: seq<T>, key: T -> real) {
    forall i, j :: 0 <= i < j < |s| ==> key(s[i]) >= key(s[j])
  }

  /** Inserts `x`, which came before every element of `s`, ahead of the first element whose key does not exceed its own. */
  function Insert<T>(x: T, s: seq<T>, key: T -> real): (r: seq<T>)
    ensures |r| == |s| + 1
  {
    if s == [] then [x]
    else if key(s[0]) <= key(x) then [x] + s
    else [s[0]] + Insert(x, s[1..], key)
  }

  /** Stable descending sort (insertion sort from the back). */
  function SortDesc<T>(s: seq<T>, key: T -> real): (r: seq<T>)
    ensures |r| == |s|
  {
    if s == [] then [] else Insert(s[0], SortDesc(s[1..], key), key)
  }

  lemma {:induction false} InsertMembers<T>(x: T, s: seq<T>, key: T -> real)
    ensures multiset(Insert(x, s, key)) == multiset(s) + multiset{x}
  {
    if s != [] && key(s[0]) > key(x) {
      InsertMembers(x, s[1..], key);
      assert s == [s[0]] + s[1..];
    }
  }

  /** An element of the tail of `s` sits at some index after the head. */
  lemma TailMember<T>(s: seq<T>, y: T)
    requires s != [] && y in multiset(s[1..])
    ensures exists k :: 1 <= k < |s| && s[k] == y
  {
    var k :| 0 <= k < |s[1..]| && s[1..][k] == y;
    assert s[k + 1] == y;
  }

  lemma {:induction false} InsertOrdered<T>(x: T, s: seq<T>, key: T -> real)
    requires NonIncreasing(s, key)
    ensures NonIncreasing(Insert(x, s, key), key)
  {
    if s != [] && key(s[0]) > key(x) {
      InsertOrdered(x, s[1..], key);
      InsertMembers(x, s[1..], key);
      var t := Insert(x, s[1..], key);
      forall j | 0 <= j < |t| ensures key(s[0]) >= key(t[j]) {
        assert t[j] in multiset(t);
        if t[j] != x {
          TailMember(s, t[j]);
        }
      }
    }
  }

  /** The descending sort is ordered and a permutation of its input. */
  lemma {:induction false} SortDescFacts<T>(s: seq<T>, key: T -> real)
    ensures NonIncreasing(SortDesc(s, key), key)
    ensures multiset(SortDesc(s, key)) == multiset(s)
    ensures |SortDesc(s, key)| == |s|
  {
    if s != [] {
      SortDescFacts(s[1..], key);
      InsertMembers(s[0], SortDesc(s[1..], key), key);
      InsertOrdered(s[0], SortDesc(s[1..], key), key);
      assert s == [s[0]] + s[1..];
    }
    assert |multiset(SortDesc(s, key))| == |multiset(s)|;
  }

  /** The position of the first element of `s` whose key is the largest. */
  function FirstMaxIndex<T>(s: seq<T>, key: T -> real): (i: nat)
    requires s != []
    ensures i < |s|
    ensures forall j :: 0 <= j < |s| ==> key(s[j]) <= key(s[i])
    ensures forall j :: 0 <= j < i ==> key(s[j]) < key(s[i])
  {
    if |s| == 1 then 0
    else
      var m := FirstMaxIndex(s[1..], key) + 1;
      if key(s[0]) >= key(s[m]) then 0 else m
  }

  /** Stability: the head of the sorted list is the earliest of the elements with the largest key. */
  lemma {:induction false} SortDescHead<T>(s: seq<T>, key: T -> real)
    requires s != []
    ensures SortDesc(s, key)[0] == s[FirstMaxIndex(s, key)]
  {
    if |s| > 1 {
      SortDescHead(s[1..], key);
    }
  }

  /** The sort keeps exactly the elements it is given. */
  lemma SortDescMembers<T>(s: seq<T>, key: T -> real)
    ensures forall x :: x in SortDesc(s, key) <==> x in s
  {
    SortDescFacts(s, key);
    forall x ensures x in SortDesc(s, key) <==> x in s {
      assert x in SortDesc(s, key) <==> x in multiset(SortDesc(s, key));
      assert x in s <==> x in multiset(s);
    }
  }

  lemma SortDescLast<T>(s: seq<T>, key: T -> real)
    requires s != []
    ensures |SortDesc(s, key)| == |s|
    ensures SortDesc(s, key)[|s| - 1] in s
    ensures forall i :: 0 <= i < |s| ==> key(SortDesc(s, key)[|s| - 1]) <= key(s[i])
  {
    var t := SortDesc(s, key);
    SortDescFacts(s, key);
    forall i | 0 <= i < |s| ensures key(t[|s| - 1]) <= key(s[i]) {
      assert s[i] in multiset(t);
      var m :| 0 <= m < |t| && t[m] == s[i];
      if m < |s| - 1 {
        assert key(t[m]) >= key(t[|s| - 1]);
      }
    }
    assert t[|s| - 1] in multiset(t);
    assert t[|s| - 1] in multiset(s);
  }

  /**
   * `sort(...).slice(0, n)` keeps the best: an element left out had no
   * larger key than the last one kept, and only when `n` were kept.
   */
  lemma TopKeepsBest<T>(s: seq<T>, key: T -> real, n: nat, x: T)
    requires n > 0 && x in multiset(s)
    ensures var r := Take(SortDesc(s, key), n);
      x in multiset(r) || (|r| == n && key(x) <= key(r[n - 1]))
  {
    var t := SortDesc(s, key);
    SortDescFacts(s, key);
    assert x in multiset(t);
    var k :| 0 <= k < |t| && t[k] == x;
    var r := Take(t, n);
    if k < n {
      assert r[k] == x;
      assert x in multiset(r);
    } else {
      assert r[n - 1] == t[n - 1];
    }
  }

  /** No two elements share a value of `f`. */
  ghost predicate DistinctBy<T, K>(s: seq<T>, f: T -> K) {
    forall i, j :: 0 <= i < j < |s| ==> f(s[i]) != f(s[j])
  }

  /** Distinctness under `f` survives the sort. */
  lemma {:induction false} SortDescKeepsDistinct<T, K>(s: seq<T>, key: T -> real, f: T -> K)
    requires DistinctBy(s, f)
    ensures DistinctBy(SortDesc(s, key), f)
  {
    if s != [] {
      SortDescKeepsDistinct(s[1..], key, f);
      SortDescFacts(s[1..], key);
      var t := SortDesc(s[1..], key);
      forall j | 0 <= j < |t| ensures f(t[j]) != f(s[0]) {
        assert t[j] in multiset(t);
        TailMember(s, t[j]);
      }
      InsertKeepsDistinct(s[0], t, key, f);
    }
  }

  lemma {:induction false} InsertKeepsDistinct<T, K>(x: T, s: seq<T>, key: T -> real, f: T -> K)
    requires DistinctBy(s, f)
    requires forall j :: 0 <= j < |s| ==> f(s[j]) != f(x)
    ensures DistinctBy(Insert(x, s, key), f)
  {
    if s != [] && key(s[0]) > key(x) {
      InsertKeepsDistinct(x, s[1..], key, f);
      InsertMembers(x, s[1..], key);
      var t := Insert(x, s[1..], key);
      forall j | 0 <= j < |t| ensures f(s[0]) != f(t[j]) {
        assert t[j] in multiset(t);
        if t[j] != x {
          TailMember(s, t[j]);
        }
      }
    }
  }

  /** The sum of an integer measure is the same after the sort. */
  lemma {:induction false} SortDescKeepsSum<T>(s: seq<T>, key: T -> real, f: T -> int)
    ensures SumOf(SortDesc(s, key), f) == SumOf(s, f)
  {
    if s != [] {
      SortDescKeepsSum(s[1..], key, f);
      InsertAddsToSum(s[0], SortDesc(s[1..], key), key, f);
    }
  }

  lemma {:induction false} InsertAddsToSum<T>(x: T, s: seq<T>, key: T -> real, f: T -> int)
    ensures SumOf(Insert(x, s, key), f) == f(x) + SumOf(s, f)
  {
    if s != [] && key(s[0]) > key(x) {
      InsertAddsToSum(x, s[1..], key, f);
      assert ([s[0]] + Insert(x, s[1..], key))[1..] == Insert(x, s[1..], key);
    } else {
      assert ([x] + s)[1..] == s;
    }
  }

  // ---------------------------------------------------------------------------
  // Ascending string sort (JavaScript's default `Array.prototype.sort`)

  /** Strict lexicographic order on code points. */
  predicate Less(a: string, b: string) {
    if a == [] then b != []
    else if b == [] then false
    else if a[0] != b[0] then a[0] < b[0]
    else Less(a[1..], b[1..])
  }

  lemma {:induction false} LessIrreflexive(a: string)
    ensures !Less(a, a)
  {
    if a != [] { LessIrreflexive(a[1..]); }
  }

  lemma {:induction false} LessAsymmetric(a: string, b: string)
    requires Less(a, b)
    ensures !Less(b, a)
  {
    if a != [] && b != [] && a[0] == b[0] { LessAsymmetric(a[1..], b[1..]); }
  }

  lemma {:induction false} LessTransitive(a: string, b: string, c: string)
    requires Less(a, b) && Less(b, c)
    ensures Less(a, c)
  {
    if a != [] && b != [] && c != [] && a[0] == b[0] && b[0] == c[0] {
      LessTransitive(a[1..], b[1..], c[1..]);
    }
  }

  lemma {:induction false} LessTotal(a: string, b: string)
    requires a != b
    ensures Less(a, b) || Less(b, a)
  {
    if a != [] && b != [] && a[0] == b[0] {
      assert a == [a[0]] + a[1..] && b == [b[0]] + b[1..];
      LessTotal(a[1..], b[1..]);
    }
  }

  /** Read backwards, transitivity: below `c` but not below `a` means `a` is not below `b`. */
  lemma LessThrough(a: string, b: string, c: string)
    requires Less(b, c) && !Less(a, c)
    ensures !Less(a, b)
  {
    if Less(a, b) { LessTransitive(a, b, c); }
  }

  predicate Ascending(s: seq<string>) {
    forall i, j :: 0 <= i < j < |s| ==> !Less(s[j], s[i])
  }

  function InsertString(x: string, s: seq<string>): seq<string> {
    if s == [] || !Less(s[0], x) then [x] + s
    else [s[0]] + InsertString(x, s[1..])
  }

  /** The ascending sort of a list of strings. */
  function SortStrings(s: seq<string>): seq<string> {
    if s == [] then [] else InsertString(s[0], SortStrings(s[1..]))
  }

  lemma {:induction false} InsertStringMembers(x: string, s: seq<string>)
    ensures multiset(InsertString(x, s)) == multiset(s) + multiset{x}
    ensures |InsertString(x, s)| == |s| + 1
  {
    if s != [] && Less(s[0], x) {
      InsertStringMembers(x, s[1..]);
      assert s == [s[0]] + s[1..];
    }
  }

  lemma {:induction false} InsertStringAscending(x: string, s: seq<string>)
    requires Ascending(s)
    ensures Ascending(InsertString(x, s))
  {
    if s == [] || !Less(s[0], x) {
      forall j | 1 < j < |[x] + s| ensures !Less(([x] + s)[j], x) {
        if x != s[0] {
          LessTotal(x, s[0]);
          LessThrough(s[j - 1], x, s[0]);
        }
      }
    } else {
      var tail := s[1..];
      assert Ascending(tail) by {
        forall i, j | 0 <= i < j < |tail| ensures !Less(tail[j], tail[i]) {
          assert tail[i] == s[i + 1] && tail[j] == s[j + 1];
        }
      }
      InsertStringAscending(x, tail);
      InsertStringMembers(x, tail);
      var t := InsertString(x, tail);
      forall j | 0 <= j < |t| ensures !Less(t[j], s[0]) {
        assert t[j] in multiset(t);
        if t[j] == x {
          LessAsymmetric(s[0], x);
        } else {
          assert t[j] in multiset(tail);
          var k :| 0 <= k < |tail| && tail[k] == t[j];
          assert s[k + 1] == t[j];
        }
      }
    }
  }

  lemma {:induction false} SortStringsLength(s: seq<string>)
    ensures |SortStrings(s)| == |s|
  {
    if s != [] {
      SortStringsLength(s[1..]);
      InsertStringMembers(s[0], SortStrings(s[1..]));
    }
  }

  /** The string sort is ascending and a permutation of its input. */
  lemma {:induction false} SortStringsFacts(s: seq<string>)
    ensures Ascending(SortStrings(s))
    ensures multiset(SortStrings(s)) == multiset(s)
  {
    if s != [] {
      SortStringsFacts(s[1..]);
      InsertStringAscending(s[0], SortStrings(s[1..]));
      InsertStringMembers(s[0], SortStrings(s[1..]));
      assert s == [s[0]] + s[1..];
    }
  }

  /** The head of an ascending list is below every element of it. */
  lemma HeadIsLeast(s: seq<string>, x: string)
    requires Ascending(s) && x in s
    ensures !Less(x, s[0])
  {
    var i :| 0 <= i < |s| && s[i] == x;
    if i == 0 { LessIrreflexive(x); }
  }

  /** Two non-empty ascending lists holding the same strings start with the same string. */
  lemma SameHead(a: seq<string>, b: seq<string>)
    requires Ascending(a) && Ascending(b) && a != [] && b != []
    requires multiset(a) == multiset(b)
    ensures a[0] == b[0]
  {
    assert a[0] in multiset(b) && b[0] in multiset(a);
    HeadIsLeast(b, a[0]);
    HeadIsLeast(a, b[0]);
    if a[0] != b[0] {
      LessTotal(a[0], b[0]);
    }
  }

  /** Dropping equal heads leaves tails holding the same strings. */
  lemma SameTails(a: seq<string>, b: seq<string>)
    requires a != [] && b != [] && a[0] == b[0]
    requires multiset(a) == multiset(b)
    ensures multiset(a[1..]) == multiset(b[1..])
  {
    assert a == [a[0]] + a[1..] && b == [b[0]] + b[1..];
    assert multiset(a) == multiset{a[0]} + multiset(a[1..]);
    assert multiset(b) == multiset{b[0]} + multiset(b[1..]);
    assert multiset(a[1..]) == multiset(a) - multiset{a[0]};
    assert multiset(b[1..]) == multiset(b) - multiset{b[0]};
  }

  /** Two ascending lists holding the same strings are equal. */
  lemma {:induction false} AscendingUnique(a: seq<string>, b: seq<string>)
    requires Ascending(a) && Ascending(b)
    requires multiset(a) == multiset(b)
    ensures a == b
  {
    if a == [] {
      assert |b| == |multiset(b)| == 0;
    } else {
      assert b != [] by { assert a[0] in multiset(b); }
      SameHead(a, b);
      SameTails(a, b);
      AscendingUnique(a[1..], b[1..]);
      assert a == [a[0]] + a[1..] && b == [b[0]] + b[1..];
    }
  }

  /** Sorting forgets the order of the input: permuted lists sort to the same list. */
  lemma SortStringsPermutationInvariant(a: seq<string>, b: seq<string>)
    requires multiset(a) == multiset(b)
    ensures SortStrings(a) == SortStrings(b)
  {
    SortStringsFacts(a);
    SortStringsFacts(b);
    AscendingUnique(SortStrings(a), SortStrings(b));
  }
}
