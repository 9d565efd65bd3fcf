/**
  The mismatch ledger (`mismatches` and `logMismatch`, js/main.js:81-94):
  hostname -> letter -> the probes that reported that hostname for that
  letter, in the order they were reported. Nothing is ever removed.
 */
module Ledger {
  import opened Letters

  type Ledger = map<string, map<Letter, seq<int>>>

  /** One hostname that failed its letter's rule, as reported by one probe. */
  datatype Mismatch = Mismatch(probe: int, letter: Letter, hostname: string)

  /** The probes listed under (hostname, letter); empty when none was ever logged. */
  function Probes(m: Ledger, hostname: string, l: Letter): seq<int> {
    if hostname in m && l in m[hostname] then m[hostname][l] else []
  }

  /** Appends `probe` under (hostname, letter), creating both levels on demand. */
  function LogMismatch(m: Ledger, probe: int, l: Letter, hostname: string): (r: Ledger)
    ensures r.Keys == m.Keys + {hostname}
    ensures r[hostname].Keys == (if hostname in m then m[hostname].Keys else {}) + {l}
    ensures Probes(r, hostname, l) == Probes(m, hostname, l) + [probe]
    ensures forall h, k :: (h != hostname || k != l) ==> Probes(r, h, k) == Probes(m, h, k)
    ensures forall h :: h in m && h != hostname ==> r[h] == m[h]
  {
    var inner := if hostname in m then m[hostname] else map[];
    var list := if l in inner then inner[l] else [];
    m[hostname := inner[l := list + [probe]]]
  }

  /** Logs the mismatches one after another. */
  function LogAll(m: Ledger, events: seq<Mismatch>): Ledger
    decreases |events|
  {
    if events == [] then m
    else LogAll(LogMismatch(m, events[0].probe, events[0].letter, events[0].hostname), events[1..])
  }

  /** The probe of one event, when it is for (hostname, letter). */
  function Here(e: Mismatch, hostname: string, l: Letter): seq<int> {
    if e.hostname == hostname && e.letter == l then [e.probe] else []
  }

  /** The reference grouping: the probes of the events for (hostname, letter), in order, duplicates kept. */
  function Group(events: seq<Mismatch>, hostname: string, l: Letter): seq<int> {
    if events == [] then [] else Here(events[0], hostname, l) + Group(events[1..], hostname, l)
  }

  /** One logged event extends exactly its own list. */
  lemma LogOne(m: Ledger, e: Mismatch, hostname: string, l: Letter)
    ensures Probes(LogMismatch(m, e.probe, e.letter, e.hostname), hostname, l) == Probes(m, hostname, l) + Here(e, hostname, l)
  {
  }

  lemma SeqAssoc(a: seq<int>, b: seq<int>, c: seq<int>)
    ensures a + b + c == a + (b + c)
  {
  }

  /** Logging a stream of mismatches groups them exactly: each list grows by
      the probes of its own events, in arrival order, with duplicates. */
  lemma {:induction false} LogAllGroups(m: Ledger, events: seq<Mismatch>, hostname: string, l: Letter)
    ensures Probes(LogAll(m, events), hostname, l) == Probes(m, hostname, l) + Group(events, hostname, l)
    decreases |events|
  {
    if events != [] {
      var e := events[0];
      var m1 := LogMismatch(m, e.probe, e.letter, e.hostname);
      var p, here, rest := Probes(m, hostname, l), Here(e, hostname, l), Group(events[1..], hostname, l);
      assert LogAll(m, events) == LogAll(m1, events[1..]);
      assert Group(events, hostname, l) == here + rest;
      LogOne(m, e, hostname, l);
      LogAllGroups(m1, events[1..], hostname, l);
      SeqAssoc(p, here, rest);
    }
  }

  /** The hostnames the events name. */
  function Hostnames(events: seq<Mismatch>): set<string> {
    set i | 0 <= i < |events| :: events[i].hostname
  }

  lemma HostnamesCons(events: seq<Mismatch>)
    requires events != []
    ensures Hostnames(events) == {events[0].hostname} + Hostnames(events[1..])
  {
    var rest := Hostnames(events[1..]);
    forall h | h in Hostnames(events) ensures h in {events[0].hostname} + rest {
      var i :| 0 <= i < |events| && events[i].hostname == h;
      if i > 0 {
        assert events[1..][i - 1].hostname == h;
      }
    }
    forall h | h in rest ensures h in Hostnames(events) {
      var i :| 0 <= i < |events[1..]| && events[1..][i].hostname == h;
      assert events[i + 1].hostname == h;
    }
  }

  /** The ledger only grows: its hostnames are the old ones plus those of the events. */
  lemma {:induction false} LogAllKeys(m: Ledger, events: seq<Mismatch>)
    ensures LogAll(m, events).Keys == m.Keys + Hostnames(events)
    decreases |events|
  {
    if events != [] {
      var e := events[0];
      LogAllKeys(LogMismatch(m, e.probe, e.letter, e.hostname), events[1..]);
      HostnamesCons(events);
    }
  }

  /** Append-only: every list of the old ledger is a prefix of its list afterwards. */
  lemma LogAllAppendOnly(m: Ledger, events: seq<Mismatch>, hostname: string, l: Letter)
    ensures Probes(m, hostname, l) <= Probes(LogAll(m, events), hostname, l)
  {
    LogAllGroups(m, events, hostname, l);
  }
}
