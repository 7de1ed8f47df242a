/**
 * The rarity test of the highlight pass: a fixed list of everyday birds
 * matched loosely by text, and a decision from how often and how recently a
 * species was seen before.
 */
module Rarity {
  import opened Model
  import opened SpeciesHistory

  /** Birds that are never reported as unusual ("pigeon" is listed twice). */
  const COMMON_BIRDS: seq<string> := [
    "house sparrow", "eurasian collared-dove", "house finch", "american goldfinch",
    "chickadee", "cardinal", "blue jay", "robin", "crow", "raven", "pigeon",
    "starling", "mockingbird", "wren", "sparrow", "finch", "dove", "pigeon",
    "canada goose", "mallard", "woodpecker", "nuthatch", "titmouse"
  ]

  /** Fewer earlier detections than this make a species unusual. */
  const FEW_SIGHTINGS: nat := 3
  /** Above this many earlier detections a species is "very common". */
  const MANY_SIGHTINGS: nat := 50

  /** `toLowerCase` on one character, for the letters A to Z. */
  function LowerChar(c: char): char {
    if 'A' <= c <= 'Z' then (c as int + 32) as char else c
  }

  /** `toLowerCase`, for the letters A to Z. */
  function ToLower(s: string): (r: string)
    ensures |r| == |s|
    ensures forall i :: 0 <= i < |s| ==> r[i] == LowerChar(s[i])
  {
    if s == [] then [] else [LowerChar(s[0])] + ToLower(s[1..])
  }

  /** `s.includes(sub)`: `sub` occurs in `s` at some position. */
  function Contains(s: string, sub: string): bool {
    if sub <= s then true
    else if s == [] then false
    else Contains(s[1..], sub)
  }

  /** `sub` occurs in `s` starting at position `i`. */
  predicate OccursAt(s: string, sub: string, i: int) {
    0 <= i && i + |sub| <= |s| && s[i..i + |sub|] == sub
  }

  /** The recursive search finds exactly the occurrences. */
  lemma {:induction false} ContainsIff(s: string, sub: string)
    ensures Contains(s, sub) <==> exists i :: OccursAt(s, sub, i)
  {
    if sub <= s {
      assert OccursAt(s, sub, 0);
    } else if s != [] {
      ContainsIff(s[1..], sub);
      assert !OccursAt(s, sub, 0);
      forall i | OccursAt(s, sub, i) && i > 0 ensures OccursAt(s[1..], sub, i - 1) {
        assert s[1..][i - 1..i - 1 + |sub|] == s[i..i + |sub|];
      }
      forall i | OccursAt(s[1..], sub, i) ensures OccursAt(s, sub, i + 1) {
        assert s[1..][i..i + |sub|] == s[i + 1..i + 1 + |sub|];
      }
    } else {
      assert forall i :: !OccursAt(s, sub, i);
    }
  }

  /** `commonBirds.some(b => name.includes(b) || b.includes(name))` on the lower-cased name. */
  predicate IsCommonBird(name: string) {
    exists i :: 0 <= i < |COMMON_BIRDS| && (Contains(name, COMMON_BIRDS[i]) || Contains(COMMON_BIRDS[i], name))
  }

  /**
   * `isUnusualDetection`: a common bird never is; otherwise a species seen
   * fewer than 3 times before is, and so is one last seen before `cutoff`
   * (120 calendar days before now); past that, the answer is no whether or
   * not the species was seen more than 50 times.
   */
  predicate IsUnusualDetection(d: Detection, h: History, cutoff: int) {
    if IsCommonBird(ToLower(d.species.commonName)) then false
    else if h.count < FEW_SIGHTINGS then true
    else if h.last < cutoff then true
    else if h.count > MANY_SIGHTINGS then false
    else false
  }

  /**
   * What the test decides: a species that is not a common bird, seen fewer
   * than 3 times or last seen before the cutoff. The "more than 50" rung
   * changes nothing.
   */
  lemma UnusualMeaning(d: Detection, h: History, cutoff: int)
    ensures IsUnusualDetection(d, h, cutoff)
      <==> !IsCommonBird(ToLower(d.species.commonName)) && (h.count < FEW_SIGHTINGS || h.last < cutoff)
  {
  }

  /** Any name that contains a listed bird counts as common, e.g. every kind of sparrow. */
  lemma ContainingCommonIsCommon(name: string, i: nat, at: nat)
    requires i < |COMMON_BIRDS|
    requires OccursAt(name, COMMON_BIRDS[i], at)
    ensures IsCommonBird(name)
  {
    ContainsIff(name, COMMON_BIRDS[i]);
  }

  /** The match also runs the other way: a name that is part of a listed bird is common too, the empty name included. */
  lemma PartOfCommonIsCommon(name: string, i: nat, at: nat)
    requires i < |COMMON_BIRDS|
    requires OccursAt(COMMON_BIRDS[i], name, at)
    ensures IsCommonBird(name)
  {
    ContainsIff(COMMON_BIRDS[i], name);
  }
}
