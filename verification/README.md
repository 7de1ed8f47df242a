# friendly-flock: a verified model of the dashboard's data layer

friendly-flock is a bird-watching dashboard over BirdWeather stations. This
project models in Dafny the part of it that turns detections into what the
cards show, and proves what that logic promises:

- **the rate limiter** in front of `getTodayDetections`: at most 30 of its
  requests in any trailing minute (module `RateLimiter`). The other
  requests of the data layer, the historical pages among them, do not go
  through it;
- **the historical cache**: a key built from the sorted station ids,
  entries kept for six hours, keys in insertion order (`HistoricalCache`);
- **the highlight pass** `processHighlights` and its fallback
  `processHighlightsSimple`:
  - the per-species history of earlier days (`SpeciesHistory`);
  - grouping by species (`Grouping`);
  - the classification ladder (first-ever, first-of-season, unusual,
    rare sighting) and the common-bird test (`Highlights`, `Rarity`);
  - a stable sort by confidence, cut to five (`Ranking`);
- **the species summary** `processSpeciesSummary`: one row per species,
  with count, time window, stations and mean confidence
  (`SpeciesSummary`), and `getTimeWindow` (`TimeWindow`);
- **station colours and names** (`StationPalette`), including the 32-bit
  string hash;
- **the tracked-station list** and its cache clearing (`StationContext`);
- **the state updates of three cards**: activity patterns, live
  detections and highlights (`PatternsCard`, `NowPlayingCard`,
  `HighlightsCard`).

Code that updates state in place is modelled as classes with `modifies`
clauses:
- the tracker map;
- the cache `Map`;
- the provider's state;
- the live feed;
- the array that `stationIds.sort()` sorts.

Each loop is a method proved against a specification function: the
history loop, the grouping loops, the summary loop, the hash loop and the
clean-up pass. The rest is functions and lemmas.

Timestamps are their parsed instants in milliseconds. A detection's UTC
date (`timestamp.split('T')[0]`) is a field. Clock readings and the
time-of-day formatter are parameters. Confidences are reals. What the
network returns is a parameter. The paginated historical fetch never
throws: a failed page ends it with what it gathered, so its result is a
plain list that may be empty.

## Model

| member | source | states |
|---|---|---|
| Model.Take | src/lib/dataService.ts:570 | `slice(0, n)`: a prefix of the input, of length min(n, length) |
| Model.AddDistinct | src/lib/dataService.ts:720-722 | `Set.add` in insertion order: the element is present afterwards, the old contents are a prefix, nothing else is added, and no element is repeated |
| RateLimiter.Recent | src/lib/dataService.ts:260 | keeps exactly the timestamps after the bound, never more than it was given |
| RateLimiter.RecentIdempotent | src/lib/dataService.ts:260 | filtering twice against the same bound is filtering once |
| RateLimiter.Prune | src/lib/dataService.ts:259-266 | a key survives the clean-up exactly when it keeps a recent timestamp, and then holds only its recent timestamps |
| RateLimiter.PruneFresh | src/lib/dataService.ts:259-266 | after the clean-up no key is empty and every timestamp is within the minute |
| RateLimiter.Record | src/lib/dataService.ts:276-282 | `now` is appended under "global", which is created if missing; every other key is untouched |
| RateLimiter.ApiCallTracker.DropStale | src/lib/dataService.ts:259-266 | the key-by-key loop leaves exactly the pruned tracker |
| RateLimiter.ApiCallTracker.CountRecent | src/lib/dataService.ts:269-271 | counts every timestamp held under every key |
| RateLimiter.ApiCallTracker.CheckRateLimit | src/lib/dataService.ts:254-274 | the tracker is pruned, and the call is allowed exactly when fewer than 30 timestamps remain |
| RateLimiter.ApiCallTracker.RecordApiCall | src/lib/dataService.ts:276-282 | the tracker becomes `Record` of the old tracker |
| RateLimiter.ApiCallTracker.GetTodayDetections | src/lib/dataService.ts:167-184 | a denied call returns nothing and records nothing; an admitted call is recorded first, then returns the upstream nodes, or nothing when the request throws |
| RateLimiter.AdmitSeesWindow | src/lib/dataService.ts:254-274 | the check at `now` counts exactly the `getTodayDetections` requests let through in the minute that ends at `now` |
| RateLimiter.StepKeepsInv | src/lib/dataService.ts:167-174 | one call at a non-decreasing time keeps the invariant: the tracker holds only "global", which holds the recent part of the call log, and no minute holds more than 30 calls |
| RateLimiter.RunNeverExceedsLimit | src/lib/dataService.ts:249-282 | over any run of `getTodayDetections` calls whose clock never goes backwards, no trailing 60-second window holds more than 30 requests sent upstream |
| Ranking.SortDescFacts | src/lib/dataService.ts:568-569 | the stable sort by a key, largest first, is non-increasing and a permutation of its input |
| Ranking.SortDescHead | src/lib/dataService.ts:510-514 | the head of the sort is the first element with the largest key (stability) |
| Ranking.SortDescKeepsDistinct | src/lib/dataService.ts:568-569 | sorting keeps "one element per species" |
| Ranking.SortDescKeepsSum | src/lib/dataService.ts:756 | sorting keeps the sum of any measure over the elements |
| Ranking.TopKeepsBest | src/lib/dataService.ts:567-570 | an element cut by `sort(...).slice(0, n)` was no larger than the last one kept, and n were kept |
| Ranking.LessTransitive | src/lib/dataService.ts:421 | the default string order is transitive |
| Ranking.LessTotal | src/lib/dataService.ts:421 | any two different strings are ordered one way or the other |
| Ranking.SortStringsFacts | src/lib/dataService.ts:421 | `sort()` on strings yields an ascending permutation of its input |
| Ranking.AscendingUnique | src/lib/dataService.ts:421 | two ascending lists holding the same strings are equal |
| Ranking.SortStringsPermutationInvariant | src/lib/dataService.ts:421 | lists that are permutations of each other sort to the same list |
| HistoricalCache.CacheKeyIgnoresOrder | src/lib/dataService.ts:421 | the cache key depends on which stations are tracked, not on their order |
| HistoricalCache.CacheKeyOfOne | src/lib/dataService.ts:421 | one station's key is `historical_` followed by its id |
| HistoricalCache.MakeCacheKey | src/lib/dataService.ts:421 | the caller's array ends up sorted in place, and the key is built from the ids as they were before the sort, sorted |
| HistoricalCache.StoredDataServedForSixHours | src/lib/dataService.ts:428-439 | data stored at `now` is served while `t < now + 6 h` and is refetched from then on |
| HistoricalCache.StoreLeavesOtherKeys | src/lib/dataService.ts:435-439 | storing one key changes what no other key serves |
| HistoricalCache.OrderAfterSet | src/lib/dataService.ts:435 | `Map.set` key order: no key repeats, and the keys are the old ones plus the new one |
| HistoricalCache.Cache.Set | src/lib/dataService.ts:435-439 | the entry is stored, and a new key goes last |
| HistoricalCache.Cache.Clear | src/lib/dataService.ts:337-340 | the cache is emptied |
| HistoricalCache.Cache.GetOrFetch | src/lib/dataService.ts:425-440 | unexpired data is used with the cache unchanged; on a miss, what the fetch gathered (possibly nothing) is used and stored for six hours, its key going last if new |
| HistoricalCache.Cache.GetCacheStatus | src/lib/dataService.ts:342-356 | one line per key in key order: the key, the time to expiry and the number of detections |
| Grouping.SpeciesOrderMembers | src/lib/dataService.ts:497-504 | the map's keys are exactly the species that occur |
| Grouping.GroupOfMembers | src/lib/dataService.ts:497-504 | a species' group holds exactly that species' detections |
| Grouping.GroupsPartition | src/lib/dataService.ts:497-504 | the group sizes add up to the number of detections |
| Grouping.GroupBySpecies | src/lib/dataService.ts:497-504 | the loop yields the species in first-seen order and each species' detections in input order |
| Grouping.EarliestIsFirstArrival | src/lib/dataService.ts:510-514 | `sortedDetections[0]` is at the earliest instant, and no detection before it in the input is at that instant |
| Grouping.EarliestAtMinTs | src/lib/dataService.ts:731 | the first of the time-sorted detections is at the group's earliest instant |
| Grouping.LastAtMaxTs | src/lib/dataService.ts:732 | the last of the time-sorted detections is at the group's latest instant |
| SpeciesHistory.PastOfMembers | src/lib/dataService.ts:457-458 | the history loop skips exactly the detections dated today |
| SpeciesHistory.AbsorbFirst | src/lib/dataService.ts:463-482 | a species' first detection gives count 1, its own confidence as the mean, and its own instant as both bounds |
| SpeciesHistory.AbsorbNext | src/lib/dataService.ts:473-482 | the running update (count + 1, `(avg * (count - 1) + c) / count`, bounds moved outwards) gives the summary of the group extended by one |
| SpeciesHistory.HistorySnoc | src/lib/dataService.ts:456-488 | one more earlier detection updates only its own species' entry, by the loop body |
| SpeciesHistory.BuildSpeciesHistory | src/lib/dataService.ts:456-488 | the loop yields the summary of each species' earlier detections |
| SpeciesHistory.HistoryMeaning | src/lib/dataService.ts:456-488 | a species has a history exactly when it was detected on an earlier day; its count, mean and first and last instants are those of exactly those detections |
| SpeciesHistory.HistoryCountsPartition | src/lib/dataService.ts:456-474 | every earlier detection is counted once: the counts add up to the number of earlier detections |
| Rarity.ToLower | src/lib/dataService.ts:373 | lower-casing keeps the length and maps each character |
| Rarity.ContainsIff | src/lib/dataService.ts:385 | `includes` holds exactly when the substring occurs at some position |
| Rarity.UnusualMeaning | src/lib/dataService.ts:365-414 | a detection is unusual exactly when its species is not a common bird and was seen fewer than 3 times or last seen before the 120-day cutoff; the "more than 50" rung makes no difference |
| Rarity.ContainingCommonIsCommon | src/lib/dataService.ts:384-391 | a name containing a listed bird (any kind of "sparrow") is never unusual |
| Rarity.PartOfCommonIsCommon | src/lib/dataService.ts:384-386 | a name that is part of a listed bird, the empty name included, also counts as common |
| Highlights.ClassifyMeaning | src/lib/dataService.ts:517-559 | first-ever exactly when there is no history but some historical data; first-of-season exactly after 90 whole days away; low confidence drops every other type; unusual only for non-common birds; a rare sighting is above 0.9 confidence with fewer than 10 earlier detections, within the season and not unusual |
| Highlights.UnusualMeansFewSightings | src/lib/dataService.ts:393-405 | behind the 90-day rung the 120-day test never fires: "unusual" always means fewer than 3 earlier detections |
| Highlights.CandidatesSound | src/lib/dataService.ts:509-565 | every pushed highlight is a species of the loop, its earliest detection today, carrying its non-empty classification |
| Highlights.CandidatesComplete | src/lib/dataService.ts:509-565 | a species of the loop gets a highlight exactly when its classification is not empty |
| Highlights.CandidatesDistinct | src/lib/dataService.ts:509-565 | no species is pushed twice |
| Highlights.CandidatesStep | src/lib/dataService.ts:509-565 | one more species adds its highlight exactly when its classification is not empty |
| Highlights.ClassifyGroups | src/lib/dataService.ts:509-565 | the per-species loop pushes exactly the candidates, in key order |
| Highlights.HighlightsShape | src/lib/dataService.ts:417-570 | at most five highlights, most confident first, one per species; none on an empty day |
| Highlights.HighlightsDescribe | src/lib/dataService.ts:509-570 | each highlight is a species heard today: its earliest detection, typed with its classification against the earlier days |
| Highlights.HighlightsKeepMostConfident | src/lib/dataService.ts:567-570 | a classified species is either shown, or five are shown and none is less confident than it |
| Highlights.NoHistoryNoHighlights | src/lib/dataService.ts:520-529 | with no historical data every species is skipped, so there are no highlights |
| Highlights.EmptyFetchSilencesHighlights | src/lib/dataService.ts:425-439 | a fetch whose first page fails stores an empty list, and for the next six hours every call is served that list and shows no highlights |
| Highlights.RepsOfFacts | src/lib/dataService.ts:678-684 | the fallback's representatives are one per species, each its species' earliest detection |
| Highlights.SimpleHighlightsShape | src/lib/dataService.ts:668-689 | the fallback keeps min(5, species) detections, most confident first, one per species, each its species' earliest detection |
| Highlights.ProcessHighlightsSimple | src/lib/dataService.ts:668-689 | the method computes the fallback's result |
| Highlights.ProcessHighlights | src/lib/dataService.ts:417-577 | an empty day gives nothing and touches nothing. Otherwise the ids end up sorted in place. A hit leaves the cache as it was; a miss stores what the fetch gathered for six hours, the key going last if new. The result is the classified top five over the cached or fetched history, or the untyped fallback when reading the detections throws |
| TimeWindow.MinOf | src/lib/gql.ts:51 | `Math.min`: a lower bound of the instants that one of them attains |
| TimeWindow.MaxOf | src/lib/gql.ts:52 | `Math.max`: an upper bound of the instants that one of them attains |
| TimeWindow.ExtremesOfPermutation | src/lib/gql.ts:50-52 | permuted instants have the same minimum and maximum |
| TimeWindow.TimeWindowIgnoresOrder | src/lib/gql.ts:46-55 | the window does not depend on the order of the instants |
| SpeciesSummary.StationNamesMembers | src/lib/dataService.ts:720-721 | the station names are exactly the names of the stations of the group's detections |
| SpeciesSummary.FirstStationId | src/lib/dataService.ts:746 | the primary station id is that of the first detection with a station, and there is none exactly when no detection has a station |
| SpeciesSummary.PushEntry | src/lib/dataService.ts:718-723 | the loop body turns a group's entry into the entry of the group extended by one |
| SpeciesSummary.CollectEntries | src/lib/dataService.ts:707-724 | the loop yields the species in first-seen order, each with the entry of its whole group |
| SpeciesSummary.RowWindow | src/lib/dataService.ts:727-741 | the window runs from the earliest to the latest time of day |
| SpeciesSummary.RowMeaning | src/lib/dataService.ts:726-755 | a row gives the species, how many detections it has, the earliest and latest time, the distinct station names joined by ", ", the first station id or "", and the mean confidence |
| SpeciesSummary.RowWindowIsTimeWindow | src/lib/dataService.ts:751 | with the en dash, the window of two or more detections is what `getTimeWindow` writes |
| SpeciesSummary.AsWrittenWindowDiffers | src/lib/dataService.ts:751 | with the separator as written, every window of two or more detections is two characters longer than, and so differs from, what `getTimeWindow` writes |
| SpeciesSummary.RowsOfMeaning | src/lib/dataService.ts:726-755 | the i-th row is the row of the i-th species |
| SpeciesSummary.RowsOfCounts | src/lib/dataService.ts:750 | the row counts add up to the group sizes |
| SpeciesSummary.SummaryShape | src/lib/dataService.ts:692-757 | one row per species, most detections first, no species twice, and the counts add up to the number of detections |
| SpeciesSummary.SummaryRows | src/lib/dataService.ts:726-756 | every row is the row of a species that occurs, and every species that occurs has a row |
| SpeciesSummary.ProcessSpeciesSummary | src/lib/dataService.ts:692-757 | the method computes the sorted rows |
| StationPalette.ToInt32 | src/lib/dataService.ts:307 | the 32-bit conversion lands in [-2^31, 2^31) |
| StationPalette.ToInt32Congruent | src/lib/dataService.ts:307 | the conversion only sees its argument modulo 2^32 |
| StationPalette.HashStepIs31 | src/lib/dataService.ts:307 | `((h << 5) - h + c) & 0xffffffff` is 31 h + c reduced to 32 bits |
| StationPalette.HashIsPolynomial | src/lib/dataService.ts:305-308 | the hash is the base-31 polynomial of the character codes, reduced to 32 bits |
| StationPalette.StationHash | src/lib/dataService.ts:305-308 | the loop computes the hash |
| StationPalette.HashSlot | src/lib/dataService.ts:309 | `Math.abs(hash) % 8` is a palette position |
| StationPalette.UntrackedStationHasNoColor | src/lib/dataService.ts:300-301 | as written, a negative index (a station missing from the list) gets no colour |
| StationPalette.PickAgrees | src/lib/dataService.ts:299-309 | the corrected choice agrees with the code for every index that is not negative |
| StationPalette.PickIsPaletteEntry | src/lib/dataService.ts:299-309 | every station gets a palette entry: its position among the first eight, otherwise one that depends only on its id |
| StationPalette.GetStationColor | src/lib/dataService.ts:285-310 | the background colour is the corrected choice from the background palette |
| StationPalette.GetStationBorderColor | src/lib/dataService.ts:313-329 | the border colour is the corrected choice from the border palette |
| StationPalette.PalettesDistinct | src/lib/dataService.ts:288-297 | no colour appears twice in the background palette or in the border palette |
| StationPalette.ColorsMatch | src/lib/dataService.ts:285-329 | a station gets the k-th background exactly when it gets the k-th border, so the two are of one colour family |
| StationPalette.FindStation | src/lib/dataService.ts:333 | `find` returns the first station with the id, or nothing when none has it |
| StationPalette.StationNameMeaning | src/lib/dataService.ts:332-335 | the name is that of the first station with the id |
| StationPalette.UnknownStationName | src/lib/dataService.ts:332-335 | an id that no station in the list has is shown as `Station <id>`, whatever the list |
| StationContext.AddMeaning | src/lib/StationContext.tsx:64-71 | after adding, the id is tracked, nothing else moves, a list without repeated ids stays so, and the station is appended only if its id was not tracked |
| StationContext.AddIdempotent | src/lib/StationContext.tsx:65-71 | adding the same station twice is adding it once |
| StationContext.RemoveMembers | src/lib/StationContext.tsx:77 | removing keeps exactly the stations with another id |
| StationContext.RemoveOne | src/lib/StationContext.tsx:77 | a single station is kept exactly when its id differs |
| StationContext.RemoveConcat | src/lib/StationContext.tsx:77 | removing from a concatenation removes from each part and keeps them in order, so the kept stations keep their original order |
| StationContext.RemoveUntracked | src/lib/StationContext.tsx:77 | removing an id that is not tracked leaves the list as it is |
| StationContext.RemoveUndoesAdd | src/lib/StationContext.tsx:64-80 | removing a station just added restores the list |
| StationContext.RemoveKeepsUnique | src/lib/StationContext.tsx:77 | removing keeps a list free of repeated ids |
| StationContext.StationProvider.AddStation | src/lib/StationContext.tsx:64-74 | the list becomes the list after adding, and the historical cache is emptied |
| StationContext.StationProvider.RemoveStation | src/lib/StationContext.tsx:76-80 | the list becomes the list after removing, and the historical cache is emptied |
| StationContext.StationProvider.StationsChanged | src/lib/StationContext.tsx:41-62 | an empty list resets the counts, the loading flag and the error; otherwise loading starts and the error clears |
| StationContext.StationProvider.CountsSettled | src/lib/StationContext.tsx:47-56 | a resolved request sets the counts (a network failure resolves with none); a rejection, which the code as written cannot reach, drops them and records the error; loading ends either way |
| PatternsCard.FindBin | src/components/PatternsCard.tsx:54 | `find` returns a bin with the hour, or nothing when no bin has it |
| PatternsCard.Sparkline | src/components/PatternsCard.tsx:53-56 | the sparkline has 24 entries |
| PatternsCard.FirstBinWins | src/components/PatternsCard.tsx:54-55 | the first bin with a given hour decides that hour's count |
| PatternsCard.InDay | src/components/PatternsCard.tsx:53-56 | keeps exactly the bins whose key is an hour of the day |
| PatternsCard.SparklineIgnoresOtherKeys | src/components/PatternsCard.tsx:53-56 | bins keyed outside 0..23 do not affect the sparkline |
| PatternsCard.Patterns | src/components/PatternsCard.tsx:49-63 | one pattern per entry of the first three |
| PatternsCard.PatternsMeaning | src/components/PatternsCard.tsx:49-63 | at most three patterns, the first three entries in order, each with its species, count and per-hour counts |
| PatternsCard.Refresh | src/components/PatternsCard.tsx:26-76 | with no stations, patterns and error are cleared; otherwise the fetched data is shown, or the error is recorded and the list emptied, and loading ends |
| PatternsCard.FailedRequestShowsNothing | src/components/PatternsCard.tsx:49-63 | a failed request resolves with an empty list, so the card shows no patterns and no error |
| PatternsCard.NoStationsNoFetch | src/components/PatternsCard.tsx:28-34 | with no stations the fetch plays no part |
| NowPlayingCard.ToLiveMeaning | src/components/NowPlayingCard.tsx:47-58 | everything but the station is copied; a detection without a station is shown at the unknown station |
| NowPlayingCard.ConnectionStatusMeaning | src/components/NowPlayingCard.tsx:65-79 | the light is on exactly when there are stations and the subscription is fetching or has no error |
| NowPlayingCard.LiveFeed.UpdateConnection | src/components/NowPlayingCard.tsx:65-79 | the effect sets the light to the connection status and leaves the list alone |
| NowPlayingCard.MockDetections | src/components/NowPlayingCard.tsx:84-139 | three sample detections |
| NowPlayingCard.LiveFeed.ShowSamplesWhenEmpty | src/components/NowPlayingCard.tsx:82-144 | with no stations the samples are shown and the light is off; otherwise nothing changes |
| NowPlayingCard.LiveFeed.Push | src/components/NowPlayingCard.tsx:60 | the new detection goes first, ahead of the first four of the old list, so the list never exceeds five |
| NowPlayingCard.Feed | src/components/NowPlayingCard.tsx:60 | after at least one push the list holds at most five |
| NowPlayingCard.FeedKeepsNewest | src/components/NowPlayingCard.tsx:60 | position i shows the i-th newest pushed detection, for the newest five |
| HighlightsCard.BadgeTextMeaning | src/components/HighlightsCard.tsx:53-63 | a type is shown as it is; without one, above 0.9 reads "First-ever", above 0.8 "First-of-season", else "Unusual" |
| HighlightsCard.BadgeColorsDistinct | src/components/HighlightsCard.tsx:65-78 | the four types get four different colours, none of them the gray default, and any other string gets gray |
| HighlightsCard.HighlightBadge | src/components/HighlightsCard.tsx:126-129 | a typed highlight shows its type in that type's colour; an untyped one is yellow |
| HighlightsCard.Refresh | src/components/HighlightsCard.tsx:16-43 | with no stations, list and error are cleared; otherwise the fetched list is shown, or the error is recorded and the list emptied, and loading and refreshing end |
| HighlightsCard.NoStationsNoFetch | src/components/HighlightsCard.tsx:17-21 | with no stations the fetch plays no part |

## Left out

- **The network:**
  - the GraphQL requests;
  - the pagination of `fetchHistoricalDetectionsWithPagination`;
  - `getCounts`, `getTimeOfDayCounts` and the live subscription.

  What they return is a parameter. The historical fetch gives a plain list, which a failed first page leaves empty. Each card's request gives `Some(data)` when it resolves and `None` when it rejects. But `getCounts` and `getTimeOfDayCounts` catch their own request errors and resolve with `null` and `[]` (src/lib/dataService.ts:200-236). So a network failure reaches the station context as `Some(None)` and the patterns card as `Some([])`, and their `None` branches are the `catch` blocks as written, which cannot then be reached. The same holds for the highlights card: `getTodayDetections` and `processHighlights` catch their own errors. The query texts in `src/lib/queries.ts` are not part of this model.
- **Clocks and formatting.** `Date.now()`, `new Date()`, the 120-days-ago date and today's UTC date are fields of a `Clock` parameter. `PlausibleClock` states how they relate. `toLocaleTimeString` is an opaque formatter parameter. The summary and the window helper use different locales; the model does not tell them apart. One reading `clock.now` stands for both `Date.now()` before the historical fetch (src/lib/dataService.ts:422) and `new Date()` after it (line 533), although up to 50 pages are fetched in between; the time that passes during the fetch is not modelled.
- **Parsing.** Timestamp strings are modelled as their parsed instants. An unparsable timestamp (NaN) is not modelled.
- **Floating point.** Confidences and averages are exact reals. Rounding of the running mean is not modelled.
- **Character handling:**
  - `toLowerCase` is modelled for the letters A to Z only;
  - `charCodeAt` is modelled as the code of a Dafny `char`, so UTF-16 surrogate pairs are not split;
  - `Ranking.Less`, the order of `sort()` on station ids, compares code points where JavaScript compares UTF-16 code units. The two orders differ only between a character above U+FFFF and one in U+E000 to U+FFFF.
- **Logging, not modelled:**
  - `console.log` and `console.error`;
  - the `recentDetections` list of the history, which nothing reads;
  - `isCommonSpecies`, which nothing calls.
- **Malformed detections.** A detection without a species or a timestamp is not modelled. The catch in `processHighlights` (src/lib/dataService.ts:572-576) is reached only through such data, because the historical fetch does not throw. `ProcessHighlights` takes a flag `passThrows` for the case where the pass cannot read a detection: a historical detection the history loop cannot read, or a detection of today whose species has no common name (src/lib/dataService.ts:373). The cache has already been updated by then, and the simple pass answers. A detection of today without a species would make the fallback throw as well; that case is not modelled.
- **React and browser plumbing:**
  - effect scheduling, `setTimeout` and the 60-second polling interval;
  - `localStorage` persistence of the station list;
  - the JSX markup;
  - the `MyStationsCard`, `TodaysSpeciesCard` and `WindowCard` components and the API route.

  Only the state each effect computes is modelled.
- Highlights.ProcessHighlights: the cache and the sort of `stationIds` are modelled as state updates. Concurrent calls that share the module-level cache are not modelled.
- RateLimiter.RunNeverExceedsLimit: proved for runs whose clock never goes backwards. A clock set back can let more calls through, and that case is not modelled.
- StationPalette.GetStationColor: uses the corrected index check (see Findings). The code as written is `PickAsWritten`.
- StationPalette.GetStationBorderColor: uses the corrected index check (see Findings). The code as written is `PickAsWritten`.
- SpeciesSummary.ProcessSpeciesSummary: uses the en dash separator (see Findings). The code as written is `RowAsWritten`.

## Findings

| source | as written | input that shows it | evidently intended | confidence | as-written member | corrected member |
|---|---|---|---|---|---|---|
| src/lib/dataService.ts:751 | the time window is joined by the three characters U+00E2 U+20AC U+201C ("â€“"): the UTF-8 bytes of an en dash read as Windows-1252 | any species with two or more detections today: the window reads `08:00â€“09:00` instead of `08:00–09:00` | the en dash U+2013, which `getTimeWindow` (src/lib/gql.ts:54) writes | high (not executed) | SpeciesSummary.AsWrittenWindowDiffers | SpeciesSummary.RowWindowIsTimeWindow |
| src/lib/dataService.ts:300-301 | `stationIndex < 8` lets a negative index through, so `baseColors[-1]` is `undefined` (the same at lines 319-320 for the border) | a highlight whose station is missing from the tracked list: `findIndex` gives -1 (src/components/HighlightsCard.tsx:103), and the class names contain `undefined` | use the position only when 0 <= index < 8, and fall back to the hash otherwise | high (not executed) | StationPalette.UntrackedStationHasNoColor | StationPalette.PickIsPaletteEntry |
