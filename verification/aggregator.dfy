/**
  The aggregation state of one session and the merge steps that change it:
  `updateMeasurements` (js/main.js:126-145), the per-feed merge loop of
  `loadMeasurements` (js/main.js:154-161), and the lookup of a probe's
  displayed latency in `getProbeStyle` (js/main.js:204-219). The network
  fetch itself is an input: each feed arrives as its decoded rows, or as
  None when the request or the JSON decoding failed.
 */
module Aggregator {
  import opened Wrappers
  import opened Letters
  import opened Text
  import opened Rules
  import opened Ledger
  import opened Records
  import opened Ranking
  import opened Progress

  datatype Aggregator = Aggregator(props: Store, mismatches: Ledger, pending: set<Letter>)

  /** The state at page load: no records, no mismatches, every letter pending. */
  function Start(): Aggregator {
    Aggregator(map[], map[], InitialPending())
  }

  /** `if (!hostname) return;`: an absent or empty hostname is ignored. */
  predicate Present(hostname: Option<string>) {
    hostname.Some? && hostname.value != ""
  }

  /** One probe's answer for one letter: lower-case, extract, then record or log. */
  function UpdateMeasurements(a: Aggregator, probe: int, l: Letter, hostname: Option<string>, ms: real): (r: Aggregator)
    ensures r.pending == a.pending
    ensures !Present(hostname) ==> r == a
    ensures Present(hostname) && Extract(l, ToLower(hostname.value)).None? ==>
      var h := ToLower(hostname.value);
      && r.props == a.props
      && r.mismatches.Keys == a.mismatches.Keys + {h}
      && Probes(r.mismatches, h, l) == Probes(a.mismatches, h, l) + [probe]
      && forall h', k :: (h' != h || k != l) ==> Probes(r.mismatches, h', k) == Probes(a.mismatches, h', k)
    ensures Present(hostname) && Extract(l, ToLower(hostname.value)).Some? ==>
      var site := Extract(l, ToLower(hostname.value)).value;
      && r.mismatches == a.mismatches
      && r.props.Keys == a.props.Keys + {probe}
      && r.props[probe].detail == Get(a.props, probe).detail[l := Entry(site, ms)]
      && (forall q :: q in a.props && q != probe ==> r.props[q] == a.props[q])
      && r.props[probe].fast.Some?
  {
    if !Present(hostname) then a
    else
      var h := ToLower(hostname.value);
      match Extract(l, h)
      case None => a.(mismatches := LogMismatch(a.mismatches, probe, l, h))
      case Some(site) => a.(props := Record(a.props, probe, Observation(l, site, ms)))
  }

  /** Matching sees only the lower-cased hostname: hostnames that differ only
      in case have the same effect. */
  lemma UpdateIgnoresCase(a: Aggregator, probe: int, l: Letter, h1: string, h2: string, ms: real)
    requires SameIgnoringCase(h1, h2)
    ensures UpdateMeasurements(a, probe, l, Some(h1), ms) == UpdateMeasurements(a, probe, l, Some(h2), ms)
  {
    ToLowerIdentifiesCase(h1, h2);
  }

  /** Every record stays consistent, whatever is merged. */
  lemma UpdateKeepsConsistent(a: Aggregator, probe: int, l: Letter, hostname: Option<string>, ms: real)
    requires AllConsistent(a.props)
    ensures AllConsistent(UpdateMeasurements(a, probe, l, hostname, ms).props)
  {
    if Present(hostname) && Extract(l, ToLower(hostname.value)).Some? {
      var site := Extract(l, ToLower(hostname.value)).value;
      ObserveKeepsConsistent(Get(a.props, probe), Observation(l, site, ms));
    }
  }

  /** An update only ever adds letter `l`, and only to the record of `probe`. */
  lemma UpdateFrame(a: Aggregator, probe: int, l: Letter, hostname: Option<string>, ms: real, q: int)
    ensures Get(UpdateMeasurements(a, probe, l, hostname, ms).props, q).detail.Keys <= Get(a.props, q).detail.Keys + {l}
    ensures q != probe ==> Get(UpdateMeasurements(a, probe, l, hostname, ms).props, q) == Get(a.props, q)
  {
  }

  /** An update for a letter the probe does not hold yet keeps every record exact. */
  lemma UpdateKeepsExact(a: Aggregator, probe: int, l: Letter, hostname: Option<string>, ms: real)
    requires AllExact(a.props)
    requires l !in Get(a.props, probe).detail
    ensures AllExact(UpdateMeasurements(a, probe, l, hostname, ms).props)
  {
    if Present(hostname) && Extract(l, ToLower(hostname.value)).Some? {
      var site := Extract(l, ToLower(hostname.value)).value;
      ObserveNewLetterKeepsExact(Get(a.props, probe), Observation(l, site, ms));
    }
  }

  // ------------------------------------------------------------------
  // One feed

  /** `[[ms, hostname]]`, the latest sample one probe reported; the hostname may be missing. */
  datatype Sample = Sample(ms: real, hostname: Option<string>)

  /** One entry of a feed. `sample` is None when the entry is not a list
      holding a list, so that `[[ms, site]]` cannot be destructured. */
  datatype Row = Row(probe: int, sample: Option<Sample>)

  predicate WellFormed(rows: seq<Row>) {
    forall i :: 0 <= i < |rows| ==> rows[i].sample.Some?
  }

  /** The loop over `Object.entries(r)`: rows merge in order; a malformed row
      throws, leaving earlier rows merged and the later ones not. The flag
      tells whether every row was merged. */
  function MergeRows(a: Aggregator, l: Letter, rows: seq<Row>): (r: (Aggregator, bool))
    ensures r.0.pending == a.pending
    ensures r.1 <==> WellFormed(rows)
    decreases |rows|
  {
    if rows == [] then (a, true)
    else if rows[0].sample.None? then (a, false)
    else
      var s := rows[0].sample.value;
      var r := MergeRows(UpdateMeasurements(a, rows[0].probe, l, s.hostname, s.ms), l, rows[1..]);
      assert WellFormed(rows) <==> WellFormed(rows[1..]) by {
        assert forall i :: 0 <= i < |rows| - 1 ==> rows[1..][i] == rows[i + 1];
      }
      r
  }

  /** The feed's letter leaves the pending set only when the fetch succeeded and every row merged. */
  predicate Completes(response: Option<seq<Row>>) {
    response.Some? && WellFormed(response.value)
  }

  /** `loadMeasurements(letter)` after its fetch settled with `response`. */
  function LoadFeed(a: Aggregator, l: Letter, response: Option<seq<Row>>): (r: Aggregator)
    ensures r.pending == if Completes(response) then a.pending - {l} else a.pending
  {
    match response
    case None => a
    case Some(rows) =>
      var (merged, ok) := MergeRows(a, l, rows);
      if ok then merged.(pending := Complete(merged.pending, l)) else merged
  }

  lemma {:induction false} MergeRowsKeepsConsistent(a: Aggregator, l: Letter, rows: seq<Row>)
    requires AllConsistent(a.props)
    ensures AllConsistent(MergeRows(a, l, rows).0.props)
    decreases |rows|
  {
    if rows != [] && rows[0].sample.Some? {
      var s := rows[0].sample.value;
      UpdateKeepsConsistent(a, rows[0].probe, l, s.hostname, s.ms);
      MergeRowsKeepsConsistent(UpdateMeasurements(a, rows[0].probe, l, s.hostname, s.ms), l, rows[1..]);
    }
  }

  lemma {:induction false} MergeRowsFrame(a: Aggregator, l: Letter, rows: seq<Row>, q: int)
    ensures Get(MergeRows(a, l, rows).0.props, q).detail.Keys <= Get(a.props, q).detail.Keys + {l}
    ensures (forall i :: 0 <= i < |rows| ==> rows[i].probe != q) ==> Get(MergeRows(a, l, rows).0.props, q) == Get(a.props, q)
    decreases |rows|
  {
    if rows != [] && rows[0].sample.Some? {
      var s := rows[0].sample.value;
      var a' := UpdateMeasurements(a, rows[0].probe, l, s.hostname, s.ms);
      UpdateFrame(a, rows[0].probe, l, s.hostname, s.ms, q);
      MergeRowsFrame(a', l, rows[1..], q);
      assert forall i :: 0 <= i < |rows| - 1 ==> rows[1..][i] == rows[i + 1];
    }
  }

  /** Each probe appears at most once in a feed (the feed is a JSON object keyed by probe id). */
  predicate DistinctProbes(rows: seq<Row>) {
    forall i, j :: 0 <= i < j < |rows| ==> rows[i].probe != rows[j].probe
  }

  /** Merging a feed whose letter none of its probes holds yet keeps every record exact. */
  lemma {:induction false} MergeRowsKeepsExact(a: Aggregator, l: Letter, rows: seq<Row>)
    requires AllExact(a.props)
    requires DistinctProbes(rows)
    requires forall i :: 0 <= i < |rows| ==> l !in Get(a.props, rows[i].probe).detail
    ensures AllExact(MergeRows(a, l, rows).0.props)
    decreases |rows|
  {
    if rows != [] && rows[0].sample.Some? {
      var s := rows[0].sample.value;
      var p := rows[0].probe;
      var a' := UpdateMeasurements(a, p, l, s.hostname, s.ms);
      UpdateKeepsExact(a, p, l, s.hostname, s.ms);
      var rest := rows[1..];
      forall i | 0 <= i < |rest| ensures l !in Get(a'.props, rest[i].probe).detail {
        assert rest[i] == rows[i + 1];
        UpdateFrame(a, p, l, s.hostname, s.ms, rest[i].probe);
      }
      assert DistinctProbes(rest) by {
        assert forall i :: 0 <= i < |rest| ==> rest[i] == rows[i + 1];
      }
      MergeRowsKeepsExact(a', l, rest);
    }
  }

  // ------------------------------------------------------------------
  // A load cycle: the feeds settling one after another

  datatype Feed = Feed(letter: Letter, response: Option<seq<Row>>)

  function LoadAll(a: Aggregator, feeds: seq<Feed>): Aggregator
    decreases |feeds|
  {
    if feeds == [] then a else LoadAll(LoadFeed(a, feeds[0].letter, feeds[0].response), feeds[1..])
  }

  /** The letters whose feed completed. */
  function Completed(feeds: seq<Feed>): set<Letter> {
    set i | 0 <= i < |feeds| && Completes(feeds[i].response) :: feeds[i].letter
  }

  /** After a cycle exactly the letters whose feed failed, or never arrived, are still pending. */
  lemma {:induction false} LoadAllPending(a: Aggregator, feeds: seq<Feed>)
    ensures LoadAll(a, feeds).pending == a.pending - Completed(feeds)
    decreases |feeds|
  {
    if feeds != [] {
      var f := feeds[0];
      LoadAllPending(LoadFeed(a, f.letter, f.response), feeds[1..]);
      var rest := Completed(feeds[1..]);
      assert Completed(feeds) == (if Completes(f.response) then {f.letter} else {}) + rest by {
        forall k | k in Completed(feeds) ensures k in (if Completes(f.response) then {f.letter} else {}) + rest {
          var i :| 0 <= i < |feeds| && Completes(feeds[i].response) && feeds[i].letter == k;
          if i > 0 {
            assert feeds[1..][i - 1] == feeds[i];
          }
        }
        forall k | k in rest ensures k in Completed(feeds) {
          var i :| 0 <= i < |feeds[1..]| && Completes(feeds[1..][i].response) && feeds[1..][i].letter == k;
          assert feeds[i + 1] == feeds[1..][i];
        }
      }
    }
  }

  lemma {:induction false} LoadAllKeepsConsistent(a: Aggregator, feeds: seq<Feed>)
    requires AllConsistent(a.props)
    ensures AllConsistent(LoadAll(a, feeds).props)
    decreases |feeds|
  {
    if feeds != [] {
      var f := feeds[0];
      if f.response.Some? {
        MergeRowsKeepsConsistent(a, f.letter, f.response.value);
      }
      LoadAllKeepsConsistent(LoadFeed(a, f.letter, f.response), feeds[1..]);
    }
  }

  /** A cycle loads each letter once, and each feed lists each probe once. */
  predicate OnceEach(feeds: seq<Feed>) {
    && (forall i, j :: 0 <= i < j < |feeds| ==> feeds[i].letter != feeds[j].letter)
    && (forall i :: 0 <= i < |feeds| && feeds[i].response.Some? ==> DistinctProbes(feeds[i].response.value))
  }

  lemma LoadFeedFrame(a: Aggregator, l: Letter, response: Option<seq<Row>>, q: int)
    ensures Get(LoadFeed(a, l, response).props, q).detail.Keys <= Get(a.props, q).detail.Keys + {l}
  {
    if response.Some? {
      MergeRowsFrame(a, l, response.value, q);
    }
  }

  /** When every letter is loaded at most once, no letter of a probe is ever
      overwritten, so every cache stays exact through the cycle. */
  lemma {:induction false} LoadAllKeepsExact(a: Aggregator, feeds: seq<Feed>)
    requires OnceEach(feeds)
    requires AllExact(a.props)
    requires forall q, i :: 0 <= i < |feeds| ==> feeds[i].letter !in Get(a.props, q).detail
    ensures AllExact(LoadAll(a, feeds).props)
    decreases |feeds|
  {
    if feeds != [] {
      var f := feeds[0];
      var a' := LoadFeed(a, f.letter, f.response);
      if f.response.Some? {
        MergeRowsKeepsExact(a, f.letter, f.response.value);
      }
      var rest := feeds[1..];
      assert forall i :: 0 <= i < |rest| ==> rest[i] == feeds[i + 1];
      forall q, i | 0 <= i < |rest| ensures rest[i].letter !in Get(a'.props, q).detail {
        LoadFeedFrame(a, f.letter, f.response, q);
      }
      LoadAllKeepsExact(a', rest);
    }
  }

  // ------------------------------------------------------------------
  // What a redraw shows

  /** The latency `getProbeStyle` colours probe `probe` with; None when the
      probe has no record (no style) or the selection is undefined. */
  function ProbeLatency(a: Aggregator, probe: int, top: int): (r: Option<real>)
    ensures probe !in a.props ==> r.None?
  {
    if probe !in a.props then None else Select(a.props[probe], top)
  }

  /** When every cache is exact, every drawn probe is coloured by the
      min(top, n)-th fastest of its latencies, for every threshold `top >= 1`. */
  lemma ExactSelectsKthFastest(a: Aggregator, probe: int, top: int)
    requires AllExact(a.props)
    requires probe in a.props
    requires top >= 1
    ensures var rec := a.props[probe];
      && ProbeLatency(a, probe, top).Some?
      && IsKth(Latencies(rec.detail), Min(top, |rec.detail|) - 1, ProbeLatency(a, probe, top).value)
      && KthOfDetail(rec.detail, Min(top, |rec.detail|) - 1, ProbeLatency(a, probe, top).value)
  {
    var rec := a.props[probe];
    LatenciesCount(rec.detail);
    LatenciesMembers(rec.detail, rec.fast.value.ms);
    SelectIsKth(rec, top);
    LatenciesKth(rec.detail, Min(top, |rec.detail|) - 1, ProbeLatency(a, probe, top).value);
  }

  /** After a cycle that loads each letter once from the start state, every
      drawn probe is coloured by the min(top, n)-th fastest of its latencies,
      for every threshold `top >= 1`, the shortcut for `top == 1` included. */
  lemma CycleSelectsKthFastest(feeds: seq<Feed>, probe: int, top: int)
    requires OnceEach(feeds)
    requires top >= 1
    requires probe in LoadAll(Start(), feeds).props
    ensures var rec := LoadAll(Start(), feeds).props[probe];
      && ProbeLatency(LoadAll(Start(), feeds), probe, top).Some?
      && IsKth(Latencies(rec.detail), Min(top, |rec.detail|) - 1, ProbeLatency(LoadAll(Start(), feeds), probe, top).value)
      && KthOfDetail(rec.detail, Min(top, |rec.detail|) - 1, ProbeLatency(LoadAll(Start(), feeds), probe, top).value)
  {
    LoadAllKeepsExact(Start(), feeds);
    ExactSelectsKthFastest(LoadAll(Start(), feeds), probe, top);
  }

  // ------------------------------------------------------------------
  // Worked examples

  /** How three hostnames fare against their letter's rule. */
  lemma ExtractExamples()
    ensures Extract('a', "rootns-fra1") == Some("fra")
    ensures Extract('b', "b2-ams") == Some("ams")
    ensures Extract('g', "xx1") == None
    ensures ToLower("XX1") == "xx1"
  {
    MatchARender(false, "fra", '1');
    assert RenderA(false, "fra", '1') == "rootns-fra1";
    MatchBRender('2', "ams");
    assert RenderB('2', "ams") == "b2-ams";
    assert !StartsWith("xx1", "groot-");
  }

  /** Probe 100 answers A from Frankfurt in 12.3ms, then B from Amsterdam in
      8.1ms: both letters are kept and B becomes the cached fastest. */
  lemma TwoLettersExample()
    ensures var p1 := Record(map[], 100, Observation('a', "fra", 12.3));
      var p2 := Record(p1, 100, Observation('b', "ams", 8.1));
      && p1 == map[100 := ProbeRecord(map['a' := Entry("fra", 12.3)], Some(Observation('a', "fra", 12.3)))]
      && p2 == map[100 := ProbeRecord(map['a' := Entry("fra", 12.3), 'b' := Entry("ams", 8.1)],
                                      Some(Observation('b', "ams", 8.1)))]
  {
  }

  /** A feed whose rows are all well formed takes its letter off the pending set. */
  lemma CompletedFeedExample()
    ensures LoadFeed(Start(), 'a', Some([Row(100, Some(Sample(12.3, None)))])).pending == InitialPending() - {'a'}
    ensures LoadFeed(Start(), 'a', Some([Row(100, None)])).pending == InitialPending()
    ensures LoadFeed(Start(), 'a', None).pending == InitialPending()
  {
  }

  /** The G rule does not accept "xx1", whatever its case. */
  lemma XX1IsMismatch()
    ensures ToLower("XX1") == "xx1" && ToLower("xx1") == "xx1"
    ensures Extract('g', "xx1").None?
  {
    assert !StartsWith("xx1", "groot-");
  }

  /** Logging a probe under an unmatched hostname of a ledger holding no other hostname. */
  lemma LogSoleMismatch(m: Ledger, probe: int, l: Letter, h: string, before: seq<int>)
    requires (m == map[] && before == []) || m == map[h := map[l := before]]
    ensures LogMismatch(m, probe, l, h) == map[h := map[l := before + [probe]]]
  {
    var r := LogMismatch(m, probe, l, h);
    assert Probes(m, h, l) == before;
    assert r.Keys == {h};
    assert r[h].Keys == {l};
    assert r[h] == map[l := before + [probe]];
  }

  /** An update whose lower-cased hostname its letter's rule rejects only logs it. */
  lemma MismatchStep(a: Aggregator, probe: int, l: Letter, hostname: Option<string>, ms: real, h: string)
    requires Present(hostname) && ToLower(hostname.value) == h && Extract(l, h).None?
    ensures UpdateMeasurements(a, probe, l, hostname, ms) == a.(mismatches := LogMismatch(a.mismatches, probe, l, h))
  {
  }

  /** The same unmatched hostname twice from probe 7 for G, first in upper
      case: both lower-case to "xx1", so the ledger lists the probe twice
      under "xx1" and no record is made. */
  lemma RepeatedMismatchExample(ms: real)
    ensures var a := UpdateMeasurements(UpdateMeasurements(Start(), 7, 'g', Some("XX1"), ms), 7, 'g', Some("xx1"), ms);
      && a.mismatches == map["xx1" := map['g' := [7, 7]]]
      && a.props == map[]
  {
    XX1IsMismatch();
    var a0 := Start();
    MismatchStep(a0, 7, 'g', Some("XX1"), ms, "xx1");
    LogSoleMismatch(a0.mismatches, 7, 'g', "xx1", []);
    assert [] + [7] == [7];
    var a1 := a0.(mismatches := map["xx1" := map['g' := [7]]]);
    MismatchStep(a1, 7, 'g', Some("xx1"), ms, "xx1");
    LogSoleMismatch(a1.mismatches, 7, 'g', "xx1", [7]);
    assert [7] + [7] == [7, 7];
  }
}
