/**
 * Station colours and names for display: the station's position in the
 * tracked list picks one of eight colours; past the eighth station a
 * 32-bit string hash of the station id picks one instead.
 */
module StationPalette {
  import opened Model

  const BASE_COLORS: seq<string> := [
    "!bg-blue-50", "!bg-green-50", "!bg-yellow-50", "!bg-purple-50",
    "!bg-pink-50", "!bg-indigo-50", "!bg-orange-50", "!bg-teal-50"
  ]

  const BORDER_COLORS: seq<string> := [
    "border-blue-400", "border-green-400", "border-yellow-400", "border-purple-400",
    "border-pink-400", "border-indigo-400", "border-orange-400", "border-teal-400"
  ]

  const PALETTE_SIZE: nat := 8
  const TWO_31: int := 0x8000_0000
  const TWO_32: int := 0x1_0000_0000

  /** JavaScript's ToInt32: the 32-bit two's-complement value congruent to `x`. */
  function ToInt32(x: int): (r: int)
    ensures -TWO_31 <= r < TWO_31
  {
    (x + TWO_31) % TWO_32 - TWO_31
  }

  /** ToInt32 only sees `x` modulo 2^32. */
  lemma ToInt32Congruent(x: int, k: int)
    ensures ToInt32(x + k * TWO_32) == ToInt32(x)
  {
    var y := x + TWO_31;
    assert (y + k * TWO_32) % TWO_32 == y % TWO_32 by {
      var q := y / TWO_32;
      var r := y % TWO_32;
      assert y + k * TWO_32 == (q + k) * TWO_32 + r;
    }
  }

  /** `((hash << 5) - hash + code) & 0xffffffff`: the shift and the mask both go through ToInt32. */
  function HashStep(hash: int, c: char): int {
    ToInt32(ToInt32(hash * 32) - hash + c as int)
  }

  /** The hash loop over the character codes of `s`. */
  function Hash(s: string): (r: int)
    ensures -TWO_31 <= r < TWO_31
  {
    if s == [] then 0 else HashStep(Hash(s[..|s| - 1]), s[|s| - 1])
  }

  /** The character codes of `s` read as digits in base 31. */
  function Poly(s: string): int {
    if s == [] then 0 else 31 * Poly(s[..|s| - 1]) + s[|s| - 1] as int
  }

  /** One step of the loop multiplies by 31 and adds the code, modulo 2^32. */
  lemma HashStepIs31(hash: int, p: int, c: char)
    requires hash == ToInt32(p)
    ensures HashStep(hash, c) == ToInt32(31 * p + c as int)
  {
    var a := ToInt32(hash * 32);
    var ka := (hash * 32 + TWO_31) / TWO_32;
    assert a == hash * 32 - ka * TWO_32;
    var kp := (p + TWO_31) / TWO_32;
    assert hash == p - kp * TWO_32;
    assert a - hash + c as int == 31 * p + c as int + (-ka - 31 * kp) * TWO_32;
    ToInt32Congruent(31 * p + c as int, -ka - 31 * kp);
  }

  /** The hash is the 32-bit value of the base-31 polynomial of the character codes. */
  lemma {:induction false} HashIsPolynomial(s: string)
    ensures Hash(s) == ToInt32(Poly(s))
  {
    if s != [] {
      HashIsPolynomial(s[..|s| - 1]);
      HashStepIs31(Hash(s[..|s| - 1]), Poly(s[..|s| - 1]), s[|s| - 1]);
    } else {
      assert ToInt32(0) == 0;
    }
  }

  /** The `for` loop that computes the hash. */
  method StationHash(id: string) returns (hash: int)
    ensures hash == Hash(id)
  {
    hash := 0;
    for i := 0 to |id|
      invariant hash == Hash(id[..i])
    {
      assert id[..i + 1][..i] == id[..i];
      hash := ToInt32(ToInt32(hash * 32) - hash + id[i] as int);
    }
    assert id[..|id|] == id;
  }

  /** `Math.abs(hash) % 8`. */
  function HashSlot(hash: int): (r: nat)
    ensures r < PALETTE_SIZE
  {
    (if hash < 0 then -hash else hash) % PALETTE_SIZE
  }

  /**
   * The choice as written: an index below 8 is used as it is, so a
   * negative index (`findIndex` gives -1 for a station that is not
   * tracked) reads past the palette and yields `undefined`, here `None`.
   */
  function PickAsWritten(palette: seq<string>, id: string, index: int): Option<string>
    requires |palette| == PALETTE_SIZE
  {
    if index < PALETTE_SIZE then (if 0 <= index then Some(palette[index]) else None)
    else Some(palette[HashSlot(Hash(id))])
  }

  /** The evident intent: the position when it is one of the first eight, else the hash. */
  function Pick(palette: seq<string>, id: string, index: int): string
    requires |palette| == PALETTE_SIZE
  {
    palette[Slot(id, index)]
  }

  /** The palette position a station gets: its index among the first eight, else its hash slot. */
  function Slot(id: string, index: int): (r: nat)
    ensures r < PALETTE_SIZE
  {
    if 0 <= index < PALETTE_SIZE then index else HashSlot(Hash(id))
  }

  /** A station that is not in the tracked list gets no colour at all as written. */
  lemma UntrackedStationHasNoColor(palette: seq<string>, id: string, index: int)
    requires |palette| == PALETTE_SIZE && index < 0
    ensures PickAsWritten(palette, id, index) == None
  {
  }

  /** The corrected choice agrees with the code wherever the code gives a colour. */
  lemma PickAgrees(palette: seq<string>, id: string, index: int)
    requires |palette| == PALETTE_SIZE && index >= 0
    ensures PickAsWritten(palette, id, index) == Some(Pick(palette, id, index))
  {
  }

  /**
   * Every station gets an entry of the palette: the one at its position
   * among the first eight, otherwise one that depends on its id alone.
   */
  lemma PickIsPaletteEntry(palette: seq<string>, id: string, index: int, other: int)
    requires |palette| == PALETTE_SIZE
    ensures Pick(palette, id, index) in palette
    ensures 0 <= index < PALETTE_SIZE ==> Pick(palette, id, index) == palette[index]
    ensures !(0 <= index < PALETTE_SIZE) && !(0 <= other < PALETTE_SIZE) ==>
      Pick(palette, id, index) == Pick(palette, id, other)
  {
  }

  /** `getStationColor`, with the index check corrected. */
  method GetStationColor(id: string, index: int) returns (color: string)
    ensures color == Pick(BASE_COLORS, id, index)
  {
    if 0 <= index < |BASE_COLORS| {
      return BASE_COLORS[index];
    }
    var hash := StationHash(id);
    color := BASE_COLORS[HashSlot(hash)];
  }

  /** `getStationBorderColor`, with the index check corrected. */
  method GetStationBorderColor(id: string, index: int) returns (color: string)
    ensures color == Pick(BORDER_COLORS, id, index)
  {
    if 0 <= index < |BORDER_COLORS| {
      return BORDER_COLORS[index];
    }
    var hash := StationHash(id);
    color := BORDER_COLORS[HashSlot(hash)];
  }

  /** The background and the border of a station are the same colour family. */
  lemma ColorsMatch(id: string, index: int, k: nat)
    requires k < PALETTE_SIZE
    ensures Pick(BASE_COLORS, id, index) == BASE_COLORS[k] <==> Pick(BORDER_COLORS, id, index) == BORDER_COLORS[k]
  {
    PalettesDistinct();
  }

  /** No colour appears twice in either palette. */
  lemma PalettesDistinct()
    ensures Distinct(BASE_COLORS) && Distinct(BORDER_COLORS)
  {
    forall i, j | 0 <= i < j < PALETTE_SIZE ensures BASE_COLORS[i] != BASE_COLORS[j] && BORDER_COLORS[i] != BORDER_COLORS[j] {
      assert BASE_COLORS[i][5] != BASE_COLORS[j][5] || BASE_COLORS[i][6] != BASE_COLORS[j][6];
      assert BORDER_COLORS[i][7] != BORDER_COLORS[j][7] || BORDER_COLORS[i][8] != BORDER_COLORS[j][8];
    }
  }

  /** `stations.find(s => s.id === id)`. */
  function FindStation(stations: seq<Station>, id: string): (r: Option<Station>)
    ensures r.Some? ==> exists i :: (0 <= i < |stations| && stations[i] == r.value && stations[i].id == id
      && forall j :: 0 <= j < i ==> stations[j].id != id)
    ensures r.None? ==> forall i :: 0 <= i < |stations| ==> stations[i].id != id
  {
    if stations == [] then None
    else if stations[0].id == id then Some(stations[0])
    else
      var r := FindStation(stations[1..], id);
      assert forall i :: 1 <= i < |stations| ==> stations[1..][i - 1] == stations[i];
      r
  }

  /** `getStationName`: the first tracked station with the id, else `Station <id>`. */
  function GetStationName(id: string, stations: seq<Station>): string {
    match FindStation(stations, id)
    case Some(s) => s.name
    case None => "Station " + id
  }

  /** An id no tracked station has is shown as `Station <id>`. */
  lemma UnknownStationName(id: string, stations: seq<Station>)
    requires forall j :: 0 <= j < |stations| ==> stations[j].id != id
    ensures GetStationName(id, stations) == "Station " + id
  {
  }

  /** The name is that of the first station with the id. */
  lemma StationNameMeaning(id: string, stations: seq<Station>, i: nat)
    requires i < |stations| && stations[i].id == id
    requires forall j :: 0 <= j < i ==> stations[j].id != id
    ensures GetStationName(id, stations) == stations[i].name
  {
    var r := FindStation(stations, id);
    var k :| 0 <= k < |stations| && stations[k] == r.value && stations[k].id == id
      && forall j :: 0 <= j < k ==> stations[j].id != id;
    assert k == i;
  }
}
