# atlas-vis aggregation core, in Dafny

atlas-vis draws a world map of RIPE Atlas probes, coloured by how fast each
probe reaches the DNS root servers. For each of the thirteen root-server
letters (A to M) the page fetches the latest result of one RIPE Atlas
measurement: per probe, a round-trip time and the `hostname.bind` string of
the root-server instance that answered. This project models the part of
`js/main.js` that turns those feeds into what the map shows:

- the measurement table and the per-letter extraction rules, which pull the
  site code out of an instance hostname (`Letters`, `Rules`, with the ASCII
  lower-casing in `Text`);
- `updateMeasurements`, which records a matched (site, latency) per probe and
  letter and caches the probe's fastest observation (`Records`, `Aggregator`);
- `logMismatch`, the ledger of hostnames that failed their letter's rule
  (`Ledger`);
- the merge loop of `loadMeasurements` and the `pending` set of letters not
  yet loaded (`Aggregator`, `Progress`);
- the k-th fastest selection of `getProbeStyle`, including the `top == 1`
  shortcut through the cache (`Ranking`);
- the view state in the URL fragment, with `getDefaults`, `getState` and
  `putState` (`ViewState`).

Everything is a pure function over immutable values. The fetch is an input:
each feed arrives as its decoded rows, or as None when the request or the
JSON decoding failed. A load cycle is the sequence of feeds in the order they
settle.

The central results are:
- `Aggregator.CycleSelectsKthFastest`: after one load cycle, the latency that
  colours a probe is the min(top, n)-th smallest of its latencies, for every
  threshold `top >= 1`. This includes the cached shortcut for `top == 1`.
  "k-th smallest" is defined by counting, independently of any sort.
- `Records.OverwriteLeavesCacheStale`: the cache can only go stale when one
  probe reports the same letter twice. One cycle never does this, because
  each letter is loaded once and each feed is a JSON object keyed by probe.

## Model

| member | source | states |
|---|---|---|
| Letters.LettersComplete | js/main.js:8-22 | the measurement table has exactly the thirteen keys 'a'..'m': every letter is one of them and there are thirteen |
| Letters.MeasurementIdInjective | js/main.js:8-22 | two letters share a measurement id iff they are the same letter, so every feed belongs to exactly one letter |
| Text.ToLower | js/main.js:128 | lower-casing keeps the length and maps each character by itself: upper-case ASCII letters to lower case, everything else unchanged |
| Text.ToLowerIdentifiesCase | js/main.js:128 | two hostnames lower-case to the same string iff they differ only in the case of their ASCII letters (both directions) |
| Text.ToLowerIdempotent | js/main.js:128 | lower-casing twice is lower-casing once, and no upper-case letter survives it |
| Rules.MatchA | js/main.js:26 | whatever rule a accepts is "rootns-" or "nnn1-", three lower-case letters and a digit, and the capture is those three letters |
| Rules.MatchARender | js/main.js:26 | every such hostname is accepted, and the captured site is its three letters |
| Rules.MatchB | js/main.js:27 | whatever rule b accepts is "b", a digit, "-" and three letters, captured |
| Rules.MatchBRender | js/main.js:27 | every such hostname is accepted with its site captured |
| Rules.MatchC | js/main.js:28 | whatever rule c accepts is three letters, a digit, a letter and ".c.root-servers.org", capturing the three letters |
| Rules.MatchCRender | js/main.js:28 | every such hostname is accepted with its site captured |
| Rules.MatchD | js/main.js:29 | whatever rule d accepts is four letters, a digit and ".droot.maxgigapop.net", capturing the four letters |
| Rules.MatchDRender | js/main.js:29 | every such hostname is accepted with its site captured |
| Rules.MatchE | js/main.js:30 | whatever rule e accepts is a letter, one or more digits, ".", a three- or four-letter site and ".eroot", capturing the site |
| Rules.MatchERender | js/main.js:30 | every such hostname is accepted with its whole site captured, a four-letter site included |
| Rules.MatchF | js/main.js:31 | whatever rule f accepts is three letters, then a digit and a letter or ".cf", then ".f.root-servers.org", capturing the three letters |
| Rules.MatchFRender | js/main.js:31 | every such hostname is accepted with its site captured |
| Rules.MatchG | js/main.js:32 | every accepted hostname is "groot-" or "groot--", the captured site (no dash, no line terminator), a dash, and a rest free of line terminators; the site ends at the first dash after the prefix |
| Rules.MatchGRender | js/main.js:32 | every "groot-" or "groot--" hostname followed by a dash-free site, a dash and a line-terminator-free rest is accepted with that site captured; an empty site after a single dash is captured only when no dash follows, since otherwise the engine prefers "groot--" |
| Rules.MatchH | js/main.js:33 | whatever rule h accepts is one or more digits, ".", three letters and ".h.root-servers.org", capturing the letters |
| Rules.MatchHRender | js/main.js:33 | every such hostname is accepted with its site captured |
| Rules.MatchI | js/main.js:34 | whatever rule i accepts is "s", a digit, "." and three letters, captured |
| Rules.MatchIRender | js/main.js:34 | every such hostname is accepted with its site captured |
| Rules.MatchJ | js/main.js:35 | whatever rule j accepts is "rootns-", "rootns-el" or "nnn1-", three letters and a digit, capturing the letters |
| Rules.MatchJRender | js/main.js:35 | every hostname with any of the three prefixes is accepted with its site captured |
| Rules.MatchK | js/main.js:36 | whatever rule k accepts is a line-terminator-free prefix, ".", a site "xx-yyy" and ".k.ripe.net", capturing the site |
| Rules.MatchKRender | js/main.js:36 | every such hostname is accepted with its site captured, whatever dots the prefix holds |
| Rules.MatchL | js/main.js:37 | whatever rule l accepts is a site "xx-yyy", "-" and two letters, capturing the site |
| Rules.MatchLRender | js/main.js:37 | every such hostname is accepted with its site captured |
| Rules.MatchM | js/main.js:38 | whatever rule m accepts is "m-", three letters, an optional "-" plus letters, "-" and a digit, capturing the three letters |
| Rules.MatchMRender | js/main.js:38 | every such hostname is accepted with its site captured, with or without the variant |
| Rules.Extract | js/main.js:25-39 | a capture is always shorter than the hostname, and for every letter but g it is 3 to 6 lower-case letters and dashes |
| Ledger.LogMismatch | js/main.js:83-94 | logging creates the hostname and letter levels on demand, appends the probe to exactly that (hostname, letter) list, and changes no other list |
| Ledger.LogAllGroups | js/main.js:83-94 | after any stream of mismatches, each (hostname, letter) list has grown by exactly the probes of its own events, in arrival order, duplicates kept |
| Ledger.LogAllKeys | js/main.js:85-87 | the ledger's hostnames are the old ones plus those of the events |
| Ledger.LogAllAppendOnly | js/main.js:90-93 | every list of the old ledger is a prefix of its list afterwards |
| Records.Observe | js/main.js:139-144 | the letter's entry becomes (site, ms); the cache is replaced iff it was unset or the new latency is strictly lower, and so never increases |
| Records.Record | js/main.js:137-144 | the probe's record is created on first match and updated; every other probe's record is unchanged |
| Records.ObserveKeepsConsistent | js/main.js:139-144 | whatever is overwritten, the cache stays set, names a letter present in `detail`, and is at most every latency there |
| Records.ObserveNewLetterKeepsExact | js/main.js:139-144 | an observation for a letter not yet present keeps the cached entry equal to that letter's entry |
| Records.ReplayFastIsFirstFastest | js/main.js:141-144 | after any observations, the cache is the first of the fastest ones; ties keep the earlier |
| Records.ReplayDetailIsLatest | js/main.js:139 | a letter is in `detail` iff it was observed, and its entry is its last observation |
| Records.ReplayDistinctIsExact | js/main.js:137-144 | when no letter is observed twice, the cache equals its letter's entry and is the least latency of the probe |
| Records.OverwriteLeavesCacheStale | js/main.js:139-144 | the letter 'a' seen at 10ms then 20ms leaves the cache at 10ms while `detail` holds only 20ms |
| Ranking.LatenciesMembers | js/main.js:216 | a value is among the latencies iff some letter of `detail` has it |
| Ranking.LatenciesCount | js/main.js:216-217 | there is one latency per letter present, so `times.length` is the number of letters |
| Ranking.LatenciesCountBelow | js/main.js:216-217 | every latency appears in `times` as often as there are letters holding it: the number of entries below (or at most) any value is the number of such letters |
| Ranking.LatenciesKth | js/main.js:216-218 | a value is the k-th smallest of `times` exactly when it is some letter's latency, at most k letters are strictly faster and more than k are at least as fast |
| Ranking.Sort | js/main.js:216 | the numeric sort returns an ascending permutation of its input |
| Ranking.SortKth | js/main.js:216-218 | index k of the sorted latencies is the k-th smallest of the unsorted ones |
| Ranking.PickClamped | js/main.js:217-218 | the pick is one of the times; it is undefined exactly when `top <= 0` or there are no times |
| Ranking.SelectIsKth | js/main.js:212-219 | for `top >= 2`, or `top == 1` with an exact cache, the selected latency is the min(top, n)-th smallest |
| Ranking.SelectBeyondCountIsSlowest | js/main.js:217-218 | a threshold at or beyond the number of letters selects the slowest latency: the value is some letter's latency and no letter's latency exceeds it |
| Ranking.FastPathAgreesWithSortedPath | js/main.js:213-218 | with an exact cache, the `top === 1` shortcut equals the general path at top 1 |
| Ranking.FastPathNeverAbove | js/main.js:213-218 | even a stale cache is no slower than the latency any threshold selects |
| Progress.InitialPending | js/main.js:111 | the pending set starts with all thirteen letters |
| Progress.Complete | js/main.js:159 | completing a letter removes it and nothing else |
| Progress.CompleteAllRemovesExactly | js/main.js:159 | after any completions, a letter is pending iff it was pending and never completed |
| Aggregator.UpdateMeasurements | js/main.js:126-145 | an absent or empty hostname changes nothing; an unmatched one is logged under its lower-cased form and leaves the records alone; a matched one updates only that probe's record and leaves the ledger alone; `pending` never changes |
| Aggregator.UpdateIgnoresCase | js/main.js:127-130 | hostnames that differ only in case have the same effect |
| Aggregator.UpdateKeepsConsistent | js/main.js:137-144 | every record stays consistent through any update |
| Aggregator.UpdateFrame | js/main.js:137-139 | an update adds at most its own letter, and only to its own probe's record |
| Aggregator.UpdateKeepsExact | js/main.js:137-144 | an update for a letter the probe does not hold yet keeps every cache exact |
| Aggregator.MergeRows | js/main.js:154-157 | the merge reports that every row was merged iff every row was well formed, and leaves `pending` alone |
| Aggregator.MergeRowsKeepsExact | js/main.js:154-157 | merging a feed for a letter none of its probes holds keeps every cache exact |
| Aggregator.LoadFeed | js/main.js:154-161 | the letter leaves `pending` iff the fetch succeeded and every row merged |
| Aggregator.LoadAllPending | js/main.js:154-168 | after a cycle, exactly the letters whose feed failed or never arrived are still pending |
| Aggregator.LoadAllKeepsConsistent | js/main.js:154-157 | whatever the feeds, every record stays consistent |
| Aggregator.LoadAllKeepsExact | js/main.js:154-168 | when each letter loads once, every cache stays exact through the cycle |
| Aggregator.ProbeLatency | js/main.js:204-206 | a probe without a record gets no colour |
| Aggregator.ExactSelectsKthFastest | js/main.js:204-219 | when every cache is exact, every probe with a record is coloured by the min(top, n)-th smallest of its latencies, for every `top >= 1`: at most min(top, n) - 1 of its letters are strictly faster and more than that many are at least as fast |
| Aggregator.CycleSelectsKthFastest | js/main.js:204-219 | after a cycle from the start state that loads each letter once, every drawn probe is coloured by the min(top, n)-th smallest of its latencies, counted over its letters, for every `top >= 1` |
| Aggregator.ExtractExamples | js/main.js:25-39 | "rootns-fra1" gives "fra" for A, "b2-ams" gives "ams" for B, "xx1" fails G, and "XX1" lower-cases to "xx1" |
| Aggregator.TwoLettersExample | js/main.js:137-144 | A at 12.3ms then B at 8.1ms for one probe keeps both entries and caches B |
| Aggregator.CompletedFeedExample | js/main.js:154-161 | a well-formed feed clears its letter; a malformed row or a failed fetch leaves it pending |
| Aggregator.RepeatedMismatchExample | js/main.js:126-135 | the same unmatched G hostname from probe 7, first in upper case and then in lower case, is logged twice under its lower-case form and makes no record |
| ViewState.Defaults | js/main.js:53-60 | the defaults are zoom 3, centre [0, 30], top 1 and scale 100 |
| ViewState.Overlay | js/main.js:65 | a deep extend of an array takes the new elements and keeps any old ones beyond them |
| ViewState.Merge | js/main.js:62-66 | every key present in the fragment overrides, and every absent key keeps its value |
| ViewState.LoadWithoutFragment | js/main.js:53-66 | with no fragment the state is exactly the defaults |
| ViewState.LoadOverridesOnlyPresentKeys | js/main.js:62-66 | a fragment sets only the keys it holds; the others keep their defaults |
| ViewState.LoadKeepsCenter | js/main.js:53-66 | the loaded centre always has at least two coordinates |
| ViewState.SaveLoadRoundTrip | js/main.js:62-74 | saving a state whose centre has two or more coordinates and loading it back gives the same state |
| ViewState.ReloadIsFixedPoint | js/main.js:62-74 | the fragment written back at startup reloads to the same state |
| ViewState.MergeNothing | js/main.js:65 | an empty fragment changes nothing |

## Left out

- The network: `fetch`, `res.json()` and the URLs are not modelled. A feed is given as its decoded rows, or None when the request or JSON decoding failed.
- `Promise.all` in `loadAllMeasurements` (js/main.js:165-168): the model gives each feed's effect in settling order. In the code, one failed feed makes `Promise.all` reject, so `showMismatches` and `hidePending` never run. A design where the cycle still resolves would not match the code.
- Concurrency and scheduling: the page runs on one event loop, so each feed's merge runs to completion. A cycle is modelled as a sequence of whole feeds.
- JSON and `unescape` decoding of the URL fragment: a fragment is given as an already-decoded descriptor, each key present or absent. Extra keys and values of other JSON types are not modelled.
- Type coercion of slider values (`+evt.target.value`), and non-integer `top`: `top` is an integer.
- The DOM and OpenLayers: `showPending`, `hidePending`, `showMismatches`, `showProbeMeasurements`, `buildMap`, `setupSliders` and `mouseOver` are display-only. The handlers `changeView`, `changeTop` and `changeScale` set fields of the state and call `putState`, which `ViewState.Save` models.
- The circle size, the colour hue and the style cache of `getProbeStyle` (js/main.js:209-210, 221-239) are floating-point display arithmetic.
- The probe metadata cache `loadProbeMeta` and `showProbeMeta` (js/main.js:174-194).
- NaN, `undefined` or non-numeric latencies. A latency is a mathematical real, and `a - b` in the sort comparator is exact.
- Non-string hostnames. A hostname that is truthy but not a string, such as a number or an array, makes `hostname.toLowerCase()` throw. That ends the merge of its feed and leaves the letter pending. The model only takes a hostname that is absent or a string.
- `Object.entries` order: for a parsed JSON object, integer-like keys such as probe ids come in ascending numeric order. The model takes the rows of a feed in any order, which covers that order. The order matters only for which rows were merged before a malformed row stopped the feed.
- Text.ToLower: models only the ASCII part of `toLowerCase`. Non-ASCII characters are left unchanged, whereas JavaScript also lower-cases them.
- Rules.Extract: returns only the first capture group, which is all the code uses. Rule g's trailing `(\.net)?` group is not returned.
- Ranking.SelectIsKth: for `top == 1` it needs an exact cache. With a stale cache only `Ranking.FastPathNeverAbove` holds, which matches the code's behaviour.
- ViewState.SaveLoadRoundTrip: requires a centre of at least two coordinates. A shorter saved centre reloads with the default's remaining coordinates, because the deep extend merges arrays element-wise.
