/**
 * The highlights card: the badge on each highlight and the refresh of the
 * list. A highlight's type is shown as it is; a highlight without one
 * (from the fallback pass) gets a label guessed from its confidence and
 * the colour of an unusual sighting.
 */
module HighlightsCard {
  import opened Model
  import opened Highlights

  const GREEN: string := "bg-green-100 text-green-800 border-green-200"
  const BLUE: string := "bg-blue-100 text-blue-800 border-blue-200"
  const PURPLE: string := "bg-purple-100 text-purple-800 border-purple-200"
  const YELLOW: string := "bg-yellow-100 text-yellow-800 border-yellow-200"
  const GRAY: string := "bg-gray-100 text-gray-800 border-gray-200"
  const HIGHLIGHTS_ERROR: string := "Failed to load highlights"

  /** The `highlightType` string; the empty string stands for a missing type, which JavaScript treats alike. */
  function TypeText(h: Highlight): string {
    if h.highlightType.Some? then h.highlightType.value.Name() else ""
  }

  /** `getBadgeText`: the type when there is one, else a label by confidence. */
  function BadgeText(highlightType: string, confidence: real): string {
    if highlightType != "" then highlightType
    else if confidence > 0.9 then "First-ever"
    else if confidence > 0.8 then "First-of-season"
    else "Unusual"
  }

  /** `getBadgeColor`. */
  function BadgeColor(highlightType: string): string {
    if highlightType == "first-ever" then GREEN
    else if highlightType == "first-of-season" then BLUE
    else if highlightType == "rare-sighting" then PURPLE
    else if highlightType == "unusual" then YELLOW
    else GRAY
  }

  /** The colour the card applies: a missing type is coloured as `unusual`. */
  function PillColor(highlightType: string): string {
    BadgeColor(if highlightType == "" then "unusual" else highlightType)
  }

  /** The type is shown verbatim; without one, the thresholds are strict, so 0.9 exactly is `First-of-season`. */
  lemma BadgeTextMeaning(highlightType: string, confidence: real)
    ensures highlightType != "" ==> BadgeText(highlightType, confidence) == highlightType
    ensures highlightType == "" ==>
      (BadgeText(highlightType, confidence) == "First-ever" <==> confidence > 0.9)
      && (BadgeText(highlightType, confidence) == "First-of-season" <==> 0.8 < confidence <= 0.9)
      && (BadgeText(highlightType, confidence) == "Unusual" <==> confidence <= 0.8)
  {
  }

  /** Each of the four types gets its own colour, and anything else the gray default. */
  lemma BadgeColorsDistinct(a: HighlightType, b: HighlightType, other: string)
    requires other !in {"first-ever", "first-of-season", "rare-sighting", "unusual"}
    ensures BadgeColor(a.Name()) != GRAY
    ensures a != b ==> BadgeColor(a.Name()) != BadgeColor(b.Name())
    ensures BadgeColor(other) == GRAY
  {
  }

  /**
   * On the card, a classified highlight shows its type with that type's
   * colour; an unclassified one shows a label by confidence in yellow.
   */
  lemma HighlightBadge(h: Highlight)
    ensures h.highlightType.Some? ==>
      BadgeText(TypeText(h), h.detection.confidence) == h.highlightType.value.Name()
      && PillColor(TypeText(h)) == BadgeColor(h.highlightType.value.Name())
      && PillColor(TypeText(h)) != GRAY
    ensures h.highlightType.None? ==> PillColor(TypeText(h)) == YELLOW
  {
    if h.highlightType.Some? {
      assert h.highlightType.value.Name() != "";
    }
  }

  /** What the card shows. */
  datatype HighlightsView = HighlightsView(highlights: seq<Highlight>, isLoading: bool, isRefreshing: bool, error: Option<string>)

  /**
   * One refresh: with no stations the list and the error are cleared and
   * nothing is fetched; otherwise `fetched` is the list, or `None` when the
   * fetch throws, which records the error. Loading ends either way.
   */
  function Refresh(view: HighlightsView, stationCount: nat, fetched: Option<seq<Highlight>>): (r: HighlightsView)
    ensures stationCount == 0 ==> r.highlights == [] && r.error == None
    ensures stationCount > 0 ==> !r.isLoading && !r.isRefreshing
    ensures stationCount > 0 && fetched.Some? ==> r.highlights == fetched.value && r.error == None
    ensures stationCount > 0 && fetched.None? ==> r.highlights == [] && r.error == Some(HIGHLIGHTS_ERROR)
  {
    if stationCount == 0 then HighlightsView([], view.isLoading, view.isRefreshing, None)
    else match fetched
      case Some(hs) => HighlightsView(hs, false, false, None)
      case None => HighlightsView([], false, false, Some(HIGHLIGHTS_ERROR))
  }

  /** With no stations the outcome of a fetch plays no part. */
  lemma NoStationsNoFetch(view: HighlightsView, a: Option<seq<Highlight>>, b: Option<seq<Highlight>>)
    ensures Refresh(view, 0, a) == Refresh(view, 0, b)
  {
  }
}
