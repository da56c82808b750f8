/**
 * The `dump_osd_network` admin command of the manager's cluster state: every
 * heartbeat record of every OSD gives a back-network entry and, when the
 * front network has been sampled, a front-network entry; entries whose ping
 * time is below the threshold are dropped; the rest are collected in a
 * `std::set` ordered by `mgr_ping_time_t::operator<` and emitted in reverse.
 */
module OsdNetwork {
  import opened PgMapTypes

  /** One row of the report: the source's `mgr_ping_time_t`. */
  datatype PingEntry = PingEntry(
    pingtime: u32,
    from: int,
    to: int,
    back: bool,
    times: Windows,
    min: Windows,
    max: Windows,
    last: u32)

  /** The report: the threshold used and the entries, in output order. */
  datatype NetworkPingTimes = NetworkPingTimes(threshold: int, entries: seq<PingEntry>)

  /** `std::max(std::max(w[0], w[1]), w[2])`: the largest of the three rolling averages. */
  function MaxOfWindows(w: Windows): (r: u32)
    ensures r >= w.oneMin && r >= w.fiveMin && r >= w.fifteenMin
    ensures r == w.oneMin || r == w.fiveMin || r == w.fifteenMin
  {
    var m := if w.oneMin < w.fiveMin then w.fiveMin else w.oneMin;
    if m < w.fifteenMin then w.fifteenMin else m
  }

  /** The interface an entry describes: back when `back`, front otherwise. */
  function Chosen(ping: HeartbeatPing, back: bool): Interface
  {
    if back then ping.back else ping.front
  }

  /** The entry built for peer `to` of OSD `from` from one interface's measurements. */
  function MakeEntry(from: int, to: int, iface: Interface, back: bool): PingEntry
  {
    PingEntry(MaxOfWindows(iface.average), from, to, back, iface.average, iface.min, iface.max, iface.last)
  }

  /** The filter `!value || item.pingtime >= value`. */
  predicate Passes(threshold: int, pingtime: u32)
  {
    threshold == 0 || pingtime >= threshold
  }

  /**
   * `e` is an entry the command builds and keeps: it describes a recorded
   * (from, to) pair, the front interface only when its last sample is
   * non-zero, all its figures are copied from that one interface, and its ping
   * time passes the threshold.
   */
  ghost predicate IsCandidate(osdStat: map<int, OsdStat>, threshold: int, e: PingEntry)
  {
    && e.from in osdStat
    && e.to in osdStat[e.from].hbPingtime
    && (e.back || osdStat[e.from].hbPingtime[e.to].front.last != 0)
    && e == MakeEntry(e.from, e.to, Chosen(osdStat[e.from].hbPingtime[e.to], e.back), e.back)
    && Passes(threshold, e.pingtime)
  }

  /** `mgr_ping_time_t::operator<` as written: on a full tie it returns the left operand's `back`. */
  predicate SourceLess(a: PingEntry, b: PingEntry)
  {
    if a.pingtime < b.pingtime then true
    else if a.pingtime > b.pingtime then false
    else if a.from < b.from then true
    else if a.from > b.from then false
    else if a.to < b.to then true
    else if a.to > b.to then false
    else a.back
  }

  /** Two entries the set treats as one: equal ping time, OSDs and interface. */
  predicate SameKey(a: PingEntry, b: PingEntry)
  {
    a.pingtime == b.pingtime && a.from == b.from && a.to == b.to && a.back == b.back
  }

  /** The intended strict order: ascending (pingtime, from, to), a back entry before a front one. */
  predicate Before(a: PingEntry, b: PingEntry)
  {
    || a.pingtime < b.pingtime
    || (a.pingtime == b.pingtime && a.from < b.from)
    || (a.pingtime == b.pingtime && a.from == b.from && a.to < b.to)
    || (a.pingtime == b.pingtime && a.from == b.from && a.to == b.to && a.back && !b.back)
  }

  ghost predicate Ascending(s: seq<PingEntry>)
  {
    forall i, j :: 0 <= i < j < |s| ==> Before(s[i], s[j])
  }

  ghost predicate Descending(s: seq<PingEntry>)
  {
    forall i, j :: 0 <= i < j < |s| ==> Before(s[j], s[i])
  }

  /** No element of `s` has the key of `x`, so `std::set::emplace` adds `x`. */
  predicate KeyAbsent(s: seq<PingEntry>, x: PingEntry)
  {
    forall i :: 0 <= i < |s| ==> !SameKey(s[i], x)
  }

  /** The operator agrees with the intended order on every pair of entries with different keys. */
  lemma SourceLessAgreesOffTies(a: PingEntry, b: PingEntry)
    requires !SameKey(a, b)
    ensures SourceLess(a, b) <==> Before(a, b)
  {
  }

  /** The operator is not irreflexive: an entry of the back interface compares less than itself. */
  lemma SourceLessNotIrreflexive(a: PingEntry)
    ensures SourceLess(a, a) <==> a.back
  {
  }

  /** The intended order is a strict total order on keys. */
  lemma BeforeStrictTotal(a: PingEntry, b: PingEntry, c: PingEntry)
    ensures !Before(a, a)
    ensures Before(a, b) ==> !Before(b, a)
    ensures Before(a, b) && Before(b, c) ==> Before(a, c)
    ensures !SameKey(a, b) ==> Before(a, b) || Before(b, a)
  {
  }

  /**
   * Two candidates with the same key are the same entry, so the set never
   * compares an entry with one of its own key and the operator's reflexive
   * case never arises.
   */
  lemma CandidateKeysDistinct(osdStat: map<int, OsdStat>, threshold: int, a: PingEntry, b: PingEntry)
    requires IsCandidate(osdStat, threshold, a) && IsCandidate(osdStat, threshold, b)
    requires SameKey(a, b)
    ensures a == b
  {
  }

  /** Every candidate's figures come from the interface it names, and its ping time passes the threshold. */
  lemma CandidateFacts(osdStat: map<int, OsdStat>, threshold: int, e: PingEntry)
    requires IsCandidate(osdStat, threshold, e)
    ensures var ping := osdStat[e.from].hbPingtime[e.to];
      var iface := if e.back then ping.back else ping.front;
      && (!e.back ==> ping.front.last != 0)
      && e.times == iface.average && e.min == iface.min && e.max == iface.max && e.last == iface.last
      && e.pingtime >= iface.average.oneMin && e.pingtime >= iface.average.fiveMin
      && e.pingtime >= iface.average.fifteenMin
      && (e.pingtime == iface.average.oneMin || e.pingtime == iface.average.fiveMin
          || e.pingtime == iface.average.fifteenMin)
      && (threshold == 0 || e.pingtime >= threshold)
  {
  }

  /** With threshold 0 every record gives a back entry, and a front entry when the front was sampled. */
  lemma ZeroThresholdKeepsEveryRecord(osdStat: map<int, OsdStat>, from: int, to: int)
    requires from in osdStat && to in osdStat[from].hbPingtime
    ensures var ping := osdStat[from].hbPingtime[to];
      && IsCandidate(osdStat, 0, MakeEntry(from, to, ping.back, true))
      && (ping.front.last != 0 <==> IsCandidate(osdStat, 0, MakeEntry(from, to, ping.front, false)))
  {
  }

  /**
   * `std::set::emplace` on a set kept as an ascending sequence: `x` goes in at
   * its place unless an element with its key is already there.
   */
  function Insert(s: seq<PingEntry>, x: PingEntry): (r: seq<PingEntry>)
    requires Ascending(s)
    ensures Ascending(r)
    ensures KeyAbsent(s, x) ==> forall e :: e in r <==> e in s || e == x
    ensures !KeyAbsent(s, x) ==> r == s
    decreases |s|
  {
    if s == [] then [x]
    else if Before(x, s[0]) then [x] + s
    else if Before(s[0], x) then
      var rest := Insert(s[1..], x);
      assert forall k :: 0 <= k < |rest| ==> Before(s[0], rest[k]) by {
        forall k | 0 <= k < |rest| ensures Before(s[0], rest[k]) {
          assert rest[k] in rest;
          if rest[k] != x {
            var m :| 0 <= m < |s[1..]| && s[1..][m] == rest[k];
            assert s[m + 1] == rest[k];
          }
        }
      }
      [s[0]] + rest
    else s
  }

  /**
   * The nested loops of the command: for every OSD and every peer it has
   * heartbeat records for, the back entry and (when the front interface has a
   * last sample) the front entry are inserted into the set if they pass the
   * threshold. The result is the whole set in ascending order.
   */
  method CollectSorted(osdStat: map<int, OsdStat>, threshold: int) returns (sorted: seq<PingEntry>)
    ensures Ascending(sorted)
    ensures forall e :: e in sorted <==> IsCandidate(osdStat, threshold, e)
  {
    sorted := [];
    var osdsLeft := osdStat.Keys;
    while osdsLeft != {}
      invariant osdsLeft <= osdStat.Keys
      invariant Ascending(sorted)
      invariant forall e :: e in sorted <==> IsCandidate(osdStat, threshold, e) && e.from !in osdsLeft
      decreases osdsLeft
    {
      ghost var someOsd := ElementOf(osdsLeft);
      var from :| from in osdsLeft;
      var peers := osdStat[from].hbPingtime;
      var peersLeft := peers.Keys;
      while peersLeft != {}
        invariant peersLeft <= peers.Keys
        invariant Ascending(sorted)
        invariant forall e :: e in sorted <==>
          IsCandidate(osdStat, threshold, e) && (e.from !in osdsLeft || (e.from == from && e.to !in peersLeft))
        decreases peersLeft
      {
        ghost var somePeer := ElementOf(peersLeft);
        var to :| to in peersLeft;
        var ping := peers[to];
        ghost var before := sorted;
        peersLeft := peersLeft - {to};
        var item := MakeEntry(from, to, ping.back, true);
        if threshold == 0 || item.pingtime >= threshold {
          assert KeyAbsent(sorted, item) by {
            forall i | 0 <= i < |sorted| ensures !SameKey(sorted[i], item) {
              assert sorted[i] in before;
            }
          }
          sorted := Insert(sorted, item);
        }
        // A front interface never sampled (last sample 0) gives no entry.
        if ping.front.last != 0 {
          ghost var withBack := sorted;
          item := MakeEntry(from, to, ping.front, false);
          if threshold == 0 || item.pingtime >= threshold {
            assert KeyAbsent(sorted, item) by {
              forall i | 0 <= i < |sorted| ensures !SameKey(sorted[i], item) {
                assert sorted[i] in withBack;
              }
            }
            sorted := Insert(sorted, item);
          }
        }
      }
      osdsLeft := osdsLeft - {from};
    }
  }

  /**
   * The command's report for an already resolved threshold: the collected set
   * emitted from its largest element down, each emitted entry checked against
   * the threshold as the source asserts.
   */
  method DumpOsdNetwork(osdStat: map<int, OsdStat>, threshold: int) returns (report: NetworkPingTimes)
    ensures report.threshold == threshold
    ensures Descending(report.entries)
    ensures forall e :: e in report.entries <==> IsCandidate(osdStat, threshold, e)
  {
    var sorted := CollectSorted(osdStat, threshold);
    var entries := [];
    var k := |sorted|;
    while k > 0
      invariant 0 <= k <= |sorted|
      invariant |entries| == |sorted| - k
      invariant forall i :: 0 <= i < |entries| ==> entries[i] == sorted[|sorted| - 1 - i]
    {
      k := k - 1;
      assert sorted[k] in sorted;
      assert threshold == 0 || sorted[k].pingtime >= threshold;
      entries := entries + [sorted[k]];
    }
    forall e | e in sorted ensures e in entries {
      var i :| 0 <= i < |sorted| && sorted[i] == e;
      assert entries[|sorted| - 1 - i] == e;
    }
    report := NetworkPingTimes(threshold, entries);
  }

  /**
   * The report does not depend on the iteration order of the maps: two
   * descending sequences with the same elements are equal.
   */
  lemma {:induction false} DescendingUnique(s: seq<PingEntry>, t: seq<PingEntry>)
    requires Descending(s) && Descending(t)
    requires forall e :: e in s <==> e in t
    ensures s == t
    decreases |s|
  {
    if s != [] {
      assert s[0] in t;
    }
    if t != [] {
      assert t[0] in s;
    }
    if s != [] && t != [] {
      HeadIsGreatest(s, t[0]);
      HeadIsGreatest(t, s[0]);
      forall e ensures e in s[1..] <==> e in t[1..] {
        if e in s[1..] {
          var i :| 1 <= i < |s| && s[i] == e;
          assert Before(s[i], s[0]);
          assert e in t;
          var j :| 0 <= j < |t| && t[j] == e;
          assert t[1..][j - 1] == e;
        }
        if e in t[1..] {
          var j :| 1 <= j < |t| && t[j] == e;
          assert Before(t[j], t[0]);
          assert e in s;
          var i :| 0 <= i < |s| && s[i] == e;
          assert s[1..][i - 1] == e;
        }
      }
      DescendingUnique(s[1..], t[1..]);
    }
  }

  /** The first element of a descending sequence is its greatest. */
  lemma HeadIsGreatest(s: seq<PingEntry>, e: PingEntry)
    requires Descending(s) && e in s
    ensures e == s[0] || Before(e, s[0])
  {
    var i :| 0 <= i < |s| && s[i] == e;
    assert i == 0 || Before(s[i], s[0]);
  }

  /**
   * Output order spelled out: descending ping time, then descending source
   * OSD, then descending target OSD, and on a full tie the front entry first.
   */
  lemma OutputOrder(s: seq<PingEntry>, i: int, j: int)
    requires Descending(s) && 0 <= i < j < |s|
    ensures s[i].pingtime >= s[j].pingtime
    ensures s[i].pingtime == s[j].pingtime ==> s[i].from >= s[j].from
    ensures s[i].pingtime == s[j].pingtime && s[i].from == s[j].from ==> s[i].to >= s[j].to
    ensures s[i].pingtime == s[j].pingtime && s[i].from == s[j].from && s[i].to == s[j].to ==>
      !s[i].back && s[j].back
  {
  }

  /** `static_cast<int64_t>` of a `uint64_t`: the same 64-bit pattern read as two's complement. */
  function AsInt64(v: u64): (r: i64)
    ensures (r + 0x1_0000_0000_0000_0000) % 0x1_0000_0000_0000_0000 == v
  {
    if v < 0x8000_0000_0000_0000 then v else v - 0x1_0000_0000_0000_0000
  }

  /**
   * The threshold the command uses: the `value` argument when given, else the
   * configured slow-ping warning time, else (when that is 0) the default
   * derived from the heartbeat grace; a negative result is clamped to 0.
   */
  function ResolveThreshold(value: Option<i64>, warnSlowPingTime: u64, graceDefault: i64): (r: i64)
    ensures r >= 0
    ensures value.Some? ==> r == if value.value < 0 then 0 else value.value
    ensures value.None? && 0 < warnSlowPingTime < 0x8000_0000_0000_0000 ==> r == warnSlowPingTime
    ensures value.None? && warnSlowPingTime >= 0x8000_0000_0000_0000 ==> r == 0
    ensures value.None? && warnSlowPingTime == 0 ==> r == if graceDefault < 0 then 0 else graceDefault
  {
    var requested :=
      match value
      case Some(v) => v
      case None => if AsInt64(warnSlowPingTime) == 0 then graceDefault else AsInt64(warnSlowPingTime);
    if requested < 0 then 0 else requested
  }
}
