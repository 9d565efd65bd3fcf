/**
  The k-th fastest selection of `getProbeStyle` (js/main.js:212-219): with
  `top == 1` the cached `fast` latency, otherwise the latencies of `detail`
  sorted ascending and indexed at `min(top - 1, n - 1)`.
 */
module Ranking {
  import opened Wrappers
  import opened Letters
  import opened Records

  // ------------------------------------------------------------------
  // The latencies of a record

  /** Every non-empty set of letters has a least one. */
  lemma {:induction false} HasLeast(keys: set<Letter>)
    requires keys != {}
    ensures exists k :: k in keys && forall j :: j in keys ==> k <= j
    decreases keys
  {
    var x :| x in keys;
    if keys != {x} {
      var rest := keys - {x};
      HasLeast(rest);
      var m :| m in rest && forall j :: j in rest ==> m <= j;
      assert forall j :: j in keys ==> j == x || j in rest;
      if x < m {
        assert forall j :: j in keys ==> x <= j;
      } else {
        assert forall j :: j in keys ==> m <= j;
      }
    } else {
      assert forall j :: j in keys ==> x <= j;
    }
  }

  /** The least letter of a non-empty set. */
  function Least(keys: set<Letter>): (k: Letter)
    requires keys != {}
    ensures k in keys && forall j :: j in keys ==> k <= j
  {
    HasLeast(keys);
    var k :| k in keys && forall j :: j in keys ==> k <= j; k
  }

  /** Removing a present key shrinks a map by one. */
  lemma RemoveKeyCount(detail: map<Letter, Entry>, k: Letter)
    ensures |detail - {k}| == if k in detail then |detail| - 1 else |detail|
  {
    if k in detail {
      assert (detail - {k}).Keys == detail.Keys - {k};
      assert |detail.Keys - {k}| == |detail.Keys| - 1;
    } else {
      assert detail - {k} == detail;
    }
  }

  /** `Object.values(p.detail).map(o => o.ms)`. JavaScript lists the values
      in the order the letters were first inserted; here they are listed in
      letter order. The list only ever goes into `Sort`, whose result depends
      on the multiset of latencies alone, so the order is immaterial. */
  function Latencies(detail: map<Letter, Entry>): seq<real>
    decreases |detail|
  {
    if detail.Keys == {} then []
    else
      var k := Least(detail.Keys);
      RemoveKeyCount(detail, k);
      [detail[k].ms] + Latencies(detail - {k})
  }

  /** The latencies are exactly those of the letters in `detail`. */
  lemma {:induction false} LatenciesMembers(detail: map<Letter, Entry>, x: real)
    ensures x in Latencies(detail) <==> exists k :: k in detail && detail[k].ms == x
    decreases |detail|
  {
    if detail.Keys != {} {
      var k := Least(detail.Keys);
      var rest := detail - {k};
      RemoveKeyCount(detail, k);
      LatenciesMembers(rest, x);
      assert Latencies(detail) == [detail[k].ms] + Latencies(rest);
      if exists j :: j in detail && detail[j].ms == x {
        var j :| j in detail && detail[j].ms == x;
        if j != k {
          assert j in rest && rest[j].ms == x;
        }
      }
      if exists j :: j in rest && rest[j].ms == x {
        var j :| j in rest && rest[j].ms == x;
        assert j in detail && detail[j].ms == x;
      }
    }
  }

  /** There is one latency per letter present: `times.length` is the number of letters. */
  lemma {:induction false} LatenciesCount(detail: map<Letter, Entry>)
    ensures |Latencies(detail)| == |detail|
    decreases |detail|
  {
    if detail.Keys != {} {
      var k := Least(detail.Keys);
      RemoveKeyCount(detail, k);
      LatenciesCount(detail - {k});
    } else {
      assert detail == map[];
    }
  }

  // ------------------------------------------------------------------
  // Sorting: `sort((a, b) => a - b)`

  predicate Sorted(s: seq<real>) {
    forall i, j :: 0 <= i < j < |s| ==> s[i] <= s[j]
  }

  /** `x` is at most every element of `s`. */
  predicate AtMostAll(x: real, s: seq<real>) {
    forall i :: 0 <= i < |s| ==> x <= s[i]
  }

  lemma PrependSorted(x: real, s: seq<real>)
    requires Sorted(s) && AtMostAll(x, s)
    ensures Sorted([x] + s)
  {
    forall i, j | 0 <= i < j < |s| + 1
      ensures ([x] + s)[i] <= ([x] + s)[j]
    {
      if i > 0 {
        assert ([x] + s)[i] == s[i - 1];
      }
      assert ([x] + s)[j] == s[j - 1];
    }
  }

  /** A bound on every element carries over to any arrangement of them. */
  lemma AtMostAllPermutation(x: real, s: seq<real>, t: seq<real>)
    requires multiset(s) == multiset(t) && AtMostAll(x, s)
    ensures AtMostAll(x, t)
  {
    forall i | 0 <= i < |t| ensures x <= t[i] {
      assert t[i] in multiset(s);
      var j :| 0 <= j < |s| && s[j] == t[i];
    }
  }

  /** Putting a head no greater than the rest in front of an insertion result. */
  lemma InsertStep(x: real, s: seq<real>, tail: seq<real>)
    requires Sorted(s) && s != [] && s[0] < x
    requires Sorted(tail) && multiset(tail) == multiset(s[1..]) + multiset{x}
    ensures Sorted([s[0]] + tail)
    ensures multiset([s[0]] + tail) == multiset(s) + multiset{x}
  {
    assert s == [s[0]] + s[1..];
    assert AtMostAll(s[0], [x] + s[1..]) by {
      forall i | 0 <= i < |s| - 1 ensures s[0] <= s[1..][i] {
        assert s[1..][i] == s[i + 1];
      }
    }
    AtMostAllPermutation(s[0], [x] + s[1..], tail);
    PrependSorted(s[0], tail);
  }

  function Insert(x: real, s: seq<real>): (r: seq<real>)
    requires Sorted(s)
    ensures Sorted(r)
    ensures multiset(r) == multiset(s) + multiset{x}
    decreases |s|
  {
    if s == [] || x <= s[0] then
      PrependSorted(x, s);
      [x] + s
    else
      var tail := Insert(x, s[1..]);
      InsertStep(x, s, tail);
      [s[0]] + tail
  }

  function Sort(s: seq<real>): (r: seq<real>)
    ensures Sorted(r)
    ensures multiset(r) == multiset(s)
    decreases |s|
  {
    if s == [] then []
    else
      assert s == [s[0]] + s[1..];
      Insert(s[0], Sort(s[1..]))
  }

  // ------------------------------------------------------------------
  // Order statistics, independent of any sorting

  predicate Under(x: real, v: real, inclusive: bool) {
    if inclusive then x <= v else x < v
  }

  /** How many elements of `s` are below `v` (or at most `v`, when inclusive). */
  function Count(s: seq<real>, v: real, inclusive: bool): nat
    decreases |s|
  {
    if s == [] then 0 else (if Under(s[0], v, inclusive) then 1 else 0) + Count(s[1..], v, inclusive)
  }

  /** `v` is the k-th smallest element of `s`, counting from 0: at most k
      elements lie strictly below it and more than k lie at or below it. */
  predicate IsKth(s: seq<real>, k: int, v: real) {
    v in s && Count(s, v, false) <= k < Count(s, v, true)
  }

  lemma {:induction false} CountConcat(a: seq<real>, b: seq<real>, v: real, inclusive: bool)
    ensures Count(a + b, v, inclusive) == Count(a, v, inclusive) + Count(b, v, inclusive)
    decreases |a|
  {
    if a == [] {
      assert a + b == b;
    } else {
      assert (a + b)[1..] == a[1..] + b;
      CountConcat(a[1..], b, v, inclusive);
    }
  }

  /** Taking out the element at index j. */
  lemma RemoveAt(b: seq<real>, j: int, v: real, inclusive: bool)
    requires 0 <= j < |b|
    ensures multiset(b[..j] + b[j + 1..]) == multiset(b) - multiset{b[j]}
    ensures Count(b, v, inclusive) == Count(b[..j] + b[j + 1..], v, inclusive) + (if Under(b[j], v, inclusive) then 1 else 0)
  {
    assert b == b[..j] + [b[j]] + b[j + 1..];
    assert multiset(b) == multiset(b[..j]) + multiset{b[j]} + multiset(b[j + 1..]);
    CountConcat(b[..j], b[j + 1..], v, inclusive);
    CountConcat(b[..j] + [b[j]], b[j + 1..], v, inclusive);
    CountConcat(b[..j], [b[j]], v, inclusive);
  }

  /** Splitting off the head of a non-empty sequence. */
  lemma HeadTail(a: seq<real>, v: real, inclusive: bool)
    requires a != []
    ensures multiset(a[1..]) == multiset(a) - multiset{a[0]}
    ensures Count(a, v, inclusive) == Count(a[1..], v, inclusive) + (if Under(a[0], v, inclusive) then 1 else 0)
  {
    assert a == [a[0]] + a[1..];
  }

  lemma {:induction false} CountPermutation(a: seq<real>, b: seq<real>, v: real, inclusive: bool)
    requires multiset(a) == multiset(b)
    ensures Count(a, v, inclusive) == Count(b, v, inclusive)
    decreases |a|
  {
    if a == [] {
      assert |multiset(b)| == 0;
    } else {
      assert a[0] in multiset(b);
      var j :| 0 <= j < |b| && b[j] == a[0];
      RemoveAt(b, j, v, inclusive);
      HeadTail(a, v, inclusive);
      CountPermutation(a[1..], b[..j] + b[j + 1..], v, inclusive);
    }
  }

  lemma {:induction false} CountAll(s: seq<real>, v: real, inclusive: bool)
    ensures Count(s, v, inclusive) <= |s|
    ensures (forall i :: 0 <= i < |s| ==> Under(s[i], v, inclusive)) ==> Count(s, v, inclusive) == |s|
    ensures (forall i :: 0 <= i < |s| ==> !Under(s[i], v, inclusive)) ==> Count(s, v, inclusive) == 0
    ensures Count(s, v, inclusive) == |s| ==> forall i :: 0 <= i < |s| ==> Under(s[i], v, inclusive)
    decreases |s|
  {
    if s != [] {
      CountAll(s[1..], v, inclusive);
      assert forall i :: 0 < i < |s| ==> s[i] == s[1..][i - 1];
    }
  }

  /** Everything below `v` is below `w` when `v < w`. */
  lemma {:induction false} CountMonotone(s: seq<real>, v: real, w: real)
    requires v < w
    ensures Count(s, v, true) <= Count(s, w, false)
    decreases |s|
  {
    if s != [] {
      CountMonotone(s[1..], v, w);
    }
  }

  // ------------------------------------------------------------------
  // Order statistics of a record, counted over its letters

  /** The letters of `detail` whose latency is below `v` (or at most `v`, when inclusive). */
  function Below(detail: map<Letter, Entry>, v: real, inclusive: bool): set<Letter> {
    set l | l in detail && Under(detail[l].ms, v, inclusive)
  }

  /** `v` is the latency of some letter, at most k letters are strictly faster
      and more than k are at least as fast: the k-th fastest, counting from 0. */
  predicate KthOfDetail(detail: map<Letter, Entry>, k: int, v: real) {
    && (exists l :: l in detail && detail[l].ms == v)
    && |Below(detail, v, false)| <= k < |Below(detail, v, true)|
  }

  /** Taking a letter out of `detail` takes it out of the letters below `v`. */
  lemma BelowRemove(detail: map<Letter, Entry>, k: Letter, v: real, inclusive: bool)
    requires k in detail
    ensures |Below(detail, v, inclusive)| ==
      |Below(detail - {k}, v, inclusive)| + (if Under(detail[k].ms, v, inclusive) then 1 else 0)
  {
    var rest := detail - {k};
    if Under(detail[k].ms, v, inclusive) {
      assert Below(detail, v, inclusive) == Below(rest, v, inclusive) + {k};
    } else {
      assert Below(detail, v, inclusive) == Below(rest, v, inclusive);
    }
  }

  /** Each latency is listed as often as there are letters holding it. */
  lemma {:induction false} LatenciesCountBelow(detail: map<Letter, Entry>, v: real, inclusive: bool)
    ensures Count(Latencies(detail), v, inclusive) == |Below(detail, v, inclusive)|
    decreases |detail|
  {
    if detail.Keys == {} {
      assert Below(detail, v, inclusive) == {};
    } else {
      var k := Least(detail.Keys);
      var rest := detail - {k};
      RemoveKeyCount(detail, k);
      LatenciesCountBelow(rest, v, inclusive);
      var lat := Latencies(detail);
      assert lat == [detail[k].ms] + Latencies(rest);
      assert lat[1..] == Latencies(rest);
      HeadTail(lat, v, inclusive);
      BelowRemove(detail, k, v, inclusive);
    }
  }

  /** An order statistic of the latency list is one of the record's letters, and back. */
  lemma {:induction false} LatenciesKth(detail: map<Letter, Entry>, k: int, v: real)
    ensures IsKth(Latencies(detail), k, v) <==> KthOfDetail(detail, k, v)
  {
    LatenciesMembers(detail, v);
    LatenciesCountBelow(detail, v, false);
    LatenciesCountBelow(detail, v, true);
  }

  /** In a sorted sequence, the element at index k is the k-th smallest. */
  lemma SortedKth(s: seq<real>, k: int)
    requires Sorted(s) && 0 <= k < |s|
    ensures IsKth(s, k, s[k])
  {
    SortedBelow(s, k);
    SortedAtOrBelow(s, k);
  }

  /** In a sorted sequence at most k elements lie strictly below `s[k]`. */
  lemma SortedBelow(s: seq<real>, k: int)
    requires Sorted(s) && 0 <= k < |s|
    ensures Count(s, s[k], false) <= k
  {
    var v := s[k];
    assert s == s[..k] + s[k..];
    CountConcat(s[..k], s[k..], v, false);
    CountAll(s[..k], v, false);
    CountAll(s[k..], v, false);
  }

  /** In a sorted sequence more than k elements lie at or below `s[k]`. */
  lemma SortedAtOrBelow(s: seq<real>, k: int)
    requires Sorted(s) && 0 <= k < |s|
    ensures k < Count(s, s[k], true)
  {
    var v := s[k];
    assert s[..k + 1] + s[k + 1..] == s;
    CountConcat(s[..k + 1], s[k + 1..], v, true);
    CountAll(s[..k + 1], v, true);
  }

  /** The k-th smallest element is unique. */
  lemma KthUnique(s: seq<real>, k: int, v: real, w: real)
    requires IsKth(s, k, v) && IsKth(s, k, w)
    ensures v == w
  {
    if v < w {
      CountMonotone(s, v, w);
    } else if w < v {
      CountMonotone(s, w, v);
    }
  }

  /** Order statistics do not depend on the order of the elements. */
  lemma KthPermutation(a: seq<real>, b: seq<real>, k: int, v: real)
    requires multiset(a) == multiset(b)
    requires IsKth(a, k, v)
    ensures IsKth(b, k, v)
  {
    CountPermutation(a, b, v, false);
    CountPermutation(a, b, v, true);
    assert v in multiset(a);
  }

  /** The least element of a sequence is its 0-th smallest. */
  lemma LeastIsKth(s: seq<real>, v: real)
    requires v in s && AtMostAll(v, s)
    ensures IsKth(s, 0, v)
  {
    CountAll(s, v, false);
    var i :| 0 <= i < |s| && s[i] == v;
    assert s == s[..i] + s[i..];
    CountConcat(s[..i], s[i..], v, true);
  }

  /** The (|s| - 1)-th smallest element is the greatest. */
  lemma LastKthIsGreatest(s: seq<real>, v: real)
    requires IsKth(s, |s| - 1, v)
    ensures forall i :: 0 <= i < |s| ==> s[i] <= v
  {
    CountAll(s, v, true);
  }

  // ------------------------------------------------------------------
  // The selection itself

  function Min(a: int, b: int): int {
    if a < b then a else b
  }

  /** `p.fast.ms`; undefined when nothing is cached. */
  function FastPath(rec: ProbeRecord): Option<real> {
    if rec.fast.Some? then Some(rec.fast.value.ms) else None
  }

  /** `times[Math.min(top - 1, times.length - 1)]`; undefined for a negative index. */
  function PickClamped(times: seq<real>, top: int): (r: Option<real>)
    ensures r.Some? ==> r.value in times
    ensures top <= 0 || times == [] <==> r.None?
  {
    var index := Min(top - 1, |times| - 1);
    if 0 <= index < |times| then Some(times[index]) else None
  }

  /** On a non-empty list and `top >= 1` the pick is the element at min(top, n) - 1. */
  lemma PickClampedAt(times: seq<real>, top: int)
    requires top >= 1 && times != []
    ensures PickClamped(times, top) == Some(times[Min(top, |times|) - 1])
  {
  }

  /** The general path: the latencies sorted ascending, picked at the clamped threshold. */
  function SortedPath(rec: ProbeRecord, top: int): Option<real> {
    PickClamped(Sort(Latencies(rec.detail)), top)
  }

  /** The latency that colours a probe for rank threshold `top`. */
  function Select(rec: ProbeRecord, top: int): Option<real> {
    if top == 1 then FastPath(rec) else SortedPath(rec, top)
  }

  /** Sorting keeps the length. */
  lemma SortLength(s: seq<real>)
    ensures |Sort(s)| == |s|
  {
    assert |Sort(s)| == |multiset(Sort(s))| == |multiset(s)|;
  }

  /** Index k of the sorted latencies is the k-th smallest of the unsorted ones. */
  lemma SortKth(lat: seq<real>, k: int)
    requires 0 <= k < |lat|
    ensures |Sort(lat)| == |lat|
    ensures IsKth(lat, k, Sort(lat)[k])
  {
    SortLength(lat);
    SortedKth(Sort(lat), k);
    KthPermutation(Sort(lat), lat, k, Sort(lat)[k]);
  }

  /** The clamped pick from any sorted arrangement of `lat` is an order statistic of `lat`. */
  lemma PickOfArrangement(lat: seq<real>, t: seq<real>, top: int)
    requires top >= 1 && lat != []
    requires Sorted(t) && multiset(t) == multiset(lat)
    ensures PickClamped(t, top).Some?
    ensures IsKth(lat, Min(top, |lat|) - 1, PickClamped(t, top).value)
  {
    assert |t| == |multiset(t)| == |lat|;
    var k := Min(top, |lat|) - 1;
    PickClampedAt(t, top);
    SortedKth(t, k);
    KthPermutation(t, lat, k, t[k]);
  }

  /** The general path selects the min(top, n)-th smallest latency of the record. */
  lemma SortedPathIsKth(rec: ProbeRecord, top: int)
    requires top >= 1 && Latencies(rec.detail) != []
    ensures SortedPath(rec, top).Some?
    ensures IsKth(Latencies(rec.detail), Min(top, |Latencies(rec.detail)|) - 1, SortedPath(rec, top).value)
  {
    PickOfArrangement(Latencies(rec.detail), Sort(Latencies(rec.detail)), top);
  }

  /** A consistent cache is no slower than any latency of the record. */
  lemma FastPathIsLowerBound(rec: ProbeRecord)
    requires Consistent(rec)
    ensures FastPath(rec).Some?
    ensures AtMostAll(FastPath(rec).value, Latencies(rec.detail))
  {
    var lat := Latencies(rec.detail);
    forall i | 0 <= i < |lat| ensures rec.fast.value.ms <= lat[i] {
      LatenciesMembers(rec.detail, lat[i]);
    }
  }

  /** With an exact cache, the shortcut is the smallest latency, the 1st fastest. */
  lemma FastPathIsKth(rec: ProbeRecord)
    requires Exact(rec)
    ensures FastPath(rec).Some?
    ensures IsKth(Latencies(rec.detail), 0, FastPath(rec).value)
  {
    FastPathIsLowerBound(rec);
    LatenciesMembers(rec.detail, rec.fast.value.ms);
    LeastIsKth(Latencies(rec.detail), rec.fast.value.ms);
  }

  /** For every `top >= 1` the selection is the min(top, n)-th smallest latency,
      provided the cache is exact when `top == 1`. */
  lemma SelectIsKth(rec: ProbeRecord, top: int)
    requires top >= 2 || (top == 1 && Exact(rec))
    requires Latencies(rec.detail) != []
    ensures Select(rec, top).Some?
    ensures IsKth(Latencies(rec.detail), Min(top, |Latencies(rec.detail)|) - 1, Select(rec, top).value)
  {
    if top == 1 {
      FastPathIsKth(rec);
    } else {
      SortedPathIsKth(rec, top);
    }
  }

  /** Any threshold at or beyond the number of letters selects the slowest latency. */
  lemma SelectBeyondCountIsSlowest(rec: ProbeRecord, top: int)
    requires top >= 2 || (top == 1 && Exact(rec))
    requires Latencies(rec.detail) != [] && top >= |Latencies(rec.detail)|
    ensures Select(rec, top).Some?
    ensures forall k :: k in rec.detail ==> rec.detail[k].ms <= Select(rec, top).value
    ensures exists k :: k in rec.detail && rec.detail[k].ms == Select(rec, top).value
  {
    var lat := Latencies(rec.detail);
    SelectIsKth(rec, top);
    var v := Select(rec, top).value;
    LatenciesMembers(rec.detail, v);
    LastKthIsGreatest(lat, v);
    forall k | k in rec.detail ensures rec.detail[k].ms <= v {
      LatenciesMembers(rec.detail, rec.detail[k].ms);
    }
  }

  /** With an exact cache the shortcut agrees with the general path at `top = 1`. */
  lemma FastPathAgreesWithSortedPath(rec: ProbeRecord)
    requires Exact(rec)
    ensures FastPath(rec) == SortedPath(rec, 1)
  {
    LatenciesMembers(rec.detail, rec.fast.value.ms);
    FastPathIsKth(rec);
    SortedPathIsKth(rec, 1);
    KthUnique(Latencies(rec.detail), 0, FastPath(rec).value, SortedPath(rec, 1).value);
  }

  /** Even a stale cache never reports more than the latency any threshold selects. */
  lemma FastPathNeverAbove(rec: ProbeRecord, top: int)
    requires Consistent(rec)
    requires Select(rec, top).Some?
    ensures FastPath(rec).value <= Select(rec, top).value
  {
    FastPathIsLowerBound(rec);
    if top != 1 {
      var v := SortedPath(rec, top).value;
      assert v in Sort(Latencies(rec.detail));
      assert v in multiset(Latencies(rec.detail));
    }
  }
}
