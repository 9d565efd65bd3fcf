/**
  The per-probe record store (`props` and the matched branch of
  `updateMeasurements`, js/main.js:136-144): for each probe, the latest
  (site, latency) per letter in `detail`, and a cached `fast` observation
  that is replaced only by a strictly faster one.
 */
module Records {
  import opened Wrappers
  import opened Letters

  /** `{site, ms}`: what one letter's feed reported for one probe. */
  datatype Entry = Entry(site: string, ms: real)

  /** `{letter, site, ms}`: one successful extraction, and the shape of the `fast` cache. */
  datatype Observation = Observation(letter: Letter, site: string, ms: real)

  datatype ProbeRecord = ProbeRecord(detail: map<Letter, Entry>, fast: Option<Observation>)

  type Store = map<int, ProbeRecord>

  /** `{ detail: {} }`, the record a probe gets on its first match. */
  const Fresh: ProbeRecord := ProbeRecord(map[], None)

  /** `props[probe] || { detail: {} }` */
  function Get(store: Store, probe: int): ProbeRecord {
    if probe in store then store[probe] else Fresh
  }

  /** Records one observation in one probe's record. */
  function Observe(rec: ProbeRecord, o: Observation): (r: ProbeRecord)
    ensures r.detail == rec.detail[o.letter := Entry(o.site, o.ms)]
    ensures r.fast.Some? && r.fast.value.ms <= o.ms
    ensures rec.fast.Some? ==> r.fast.value.ms <= rec.fast.value.ms
    ensures rec.fast.None? || o.ms < rec.fast.value.ms ==> r.fast == Some(o)
    ensures rec.fast.Some? && !(o.ms < rec.fast.value.ms) ==> r.fast == rec.fast
  {
    var fast := if rec.fast.None? || o.ms < rec.fast.value.ms then Some(o) else rec.fast;
    ProbeRecord(rec.detail[o.letter := Entry(o.site, o.ms)], fast)
  }

  /** The matched branch of `updateMeasurements`: creates the record lazily and updates it. */
  function Record(store: Store, probe: int, o: Observation): (r: Store)
    ensures r.Keys == store.Keys + {probe}
    ensures forall q :: q in store && q != probe ==> r[q] == store[q]
    ensures r[probe].detail == Get(store, probe).detail[o.letter := Entry(o.site, o.ms)]
    ensures r[probe].fast.Some?
    ensures probe in store && store[probe].fast.Some? ==> r[probe].fast.value.ms <= store[probe].fast.value.ms
  {
    store[probe := Observe(Get(store, probe), o)]
  }

  // ------------------------------------------------------------------
  // What the cache promises

  /** The cache is set, names a letter present in `detail`, and is no slower
      than any latency in `detail`. Holds of every record ever built. */
  predicate Consistent(rec: ProbeRecord) {
    && rec.fast.Some?
    && rec.fast.value.letter in rec.detail
    && forall k :: k in rec.detail ==> rec.fast.value.ms <= rec.detail[k].ms
  }

  /** Moreover the cached letter's entry is still the one that was cached, so
      `fast.ms` is the least latency in `detail`. */
  predicate Exact(rec: ProbeRecord) {
    && Consistent(rec)
    && rec.detail[rec.fast.value.letter] == Entry(rec.fast.value.site, rec.fast.value.ms)
  }

  predicate AllConsistent(store: Store) {
    forall q :: q in store ==> Consistent(store[q])
  }

  predicate AllExact(store: Store) {
    forall q :: q in store ==> Exact(store[q])
  }

  /** Whatever is overwritten, the cache never exceeds a latency in `detail`. */
  lemma ObserveKeepsConsistent(rec: ProbeRecord, o: Observation)
    requires rec == Fresh || Consistent(rec)
    ensures Consistent(Observe(rec, o))
  {
  }

  /** An observation for a letter the record does not hold yet keeps the cache exact. */
  lemma ObserveNewLetterKeepsExact(rec: ProbeRecord, o: Observation)
    requires rec == Fresh || Exact(rec)
    requires o.letter !in rec.detail
    ensures Exact(Observe(rec, o))
  {
  }

  // ------------------------------------------------------------------
  // A probe's history

  /** The record built from the observations, in order, starting from `rec`. */
  function Replay(rec: ProbeRecord, obs: seq<Observation>): ProbeRecord
    decreases |obs|
  {
    if obs == [] then rec else Observe(Replay(rec, obs[..|obs| - 1]), obs[|obs| - 1])
  }

  /** The index of the first observation with the least latency. */
  function FirstFastest(obs: seq<Observation>): (i: nat)
    requires obs != []
    ensures i < |obs|
    ensures forall j :: 0 <= j < |obs| ==> obs[i].ms <= obs[j].ms
    ensures forall j :: 0 <= j < i ==> obs[j].ms > obs[i].ms
    decreases |obs|
  {
    if |obs| == 1 then 0
    else
      var i := FirstFastest(obs[..|obs| - 1]);
      if obs[|obs| - 1].ms < obs[i].ms then |obs| - 1 else i
  }

  /** Whatever the letters, the cache holds the first of the fastest
      observations ever made for the probe; ties keep the earlier one. */
  lemma {:induction false} ReplayFastIsFirstFastest(obs: seq<Observation>)
    requires obs != []
    ensures Replay(Fresh, obs).fast == Some(obs[FirstFastest(obs)])
    decreases |obs|
  {
    if |obs| > 1 {
      var init := obs[..|obs| - 1];
      ReplayFastIsFirstFastest(init);
      assert init[FirstFastest(init)] == obs[FirstFastest(init)];
    }
  }

  /** `obs[i]` is the last observation of letter `k`. */
  predicate LastFor(obs: seq<Observation>, i: int, k: Letter) {
    0 <= i < |obs| && obs[i].letter == k && forall j :: i < j < |obs| ==> obs[j].letter != k
  }

  /** A letter is in `detail` exactly when it was observed. */
  lemma {:induction false} ReplayDetailKeys(obs: seq<Observation>, k: Letter)
    ensures k in Replay(Fresh, obs).detail <==> exists i :: 0 <= i < |obs| && obs[i].letter == k
    decreases |obs|
  {
    if obs != [] {
      var init := obs[..|obs| - 1];
      ReplayDetailKeys(init, k);
      if exists i :: 0 <= i < |init| && init[i].letter == k {
        var i :| 0 <= i < |init| && init[i].letter == k;
        assert obs[i].letter == k;
      }
      if exists i :: 0 <= i < |obs| && obs[i].letter == k {
        var i :| 0 <= i < |obs| && obs[i].letter == k;
        if i < |init| {
          assert init[i].letter == k;
        }
      }
    }
  }

  /** The entry of a letter is its last observation. */
  lemma {:induction false} ReplayDetailLast(obs: seq<Observation>, k: Letter, i: int)
    requires LastFor(obs, i, k)
    ensures k in Replay(Fresh, obs).detail
    ensures Replay(Fresh, obs).detail[k] == Entry(obs[i].site, obs[i].ms)
    decreases |obs|
  {
    var init := obs[..|obs| - 1];
    if i < |init| {
      assert obs[|obs| - 1].letter != k;
      assert LastFor(init, i, k);
      ReplayDetailLast(init, k, i);
    }
  }

  /** `detail` holds, for each letter observed, its latest observation, and nothing else. */
  lemma ReplayDetailIsLatest(obs: seq<Observation>, k: Letter)
    ensures k in Replay(Fresh, obs).detail <==> exists i :: 0 <= i < |obs| && obs[i].letter == k
    ensures forall i :: LastFor(obs, i, k) ==> Replay(Fresh, obs).detail[k] == Entry(obs[i].site, obs[i].ms)
  {
    ReplayDetailKeys(obs, k);
    forall i | LastFor(obs, i, k)
      ensures Replay(Fresh, obs).detail[k] == Entry(obs[i].site, obs[i].ms)
    {
      ReplayDetailLast(obs, k, i);
    }
  }

  /** Each letter at most once per probe. */
  predicate DistinctLetters(obs: seq<Observation>) {
    forall i, j :: 0 <= i < j < |obs| ==> obs[i].letter != obs[j].letter
  }

  /** When no letter is observed twice, the cache is exact: it is an entry of
      `detail` and the least latency there. */
  lemma {:induction false} ReplayDistinctIsExact(obs: seq<Observation>)
    requires obs != []
    requires DistinctLetters(obs)
    ensures Exact(Replay(Fresh, obs))
    decreases |obs|
  {
    var init := obs[..|obs| - 1];
    var o := obs[|obs| - 1];
    if init != [] {
      ReplayDistinctIsExact(init);
    }
    ReplayDetailKeys(init, o.letter);
    ObserveNewLetterKeepsExact(Replay(Fresh, init), o);
  }

  /** Without the distinctness, the cache can go stale: a probe whose only
      letter was first seen at 10ms and then at 20ms still caches 10ms. */
  lemma OverwriteLeavesCacheStale()
    ensures var rec := Replay(Fresh, [Observation('a', "fra", 10.0), Observation('a', "ams", 20.0)]);
      && rec.detail == map['a' := Entry("ams", 20.0)]
      && rec.fast == Some(Observation('a', "fra", 10.0))
      && Consistent(rec) && !Exact(rec)
  {
    var obs := [Observation('a', "fra", 10.0), Observation('a', "ams", 20.0)];
    assert obs[..1] == [obs[0]];
    assert obs[..1][..0] == [];
  }
}
