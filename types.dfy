/**
 * Value types held by the manager's cluster-state aggregator: placement-group
 * ids and statistics, per-OSD statistics with their heartbeat ping times, the
 * committed PGMap and the pending Incremental that is folded into it.
 */
module PgMapTypes {

  type u32 = x: int | 0 <= x < 0x1_0000_0000
  type u64 = x: int | 0 <= x < 0x1_0000_0000_0000_0000
  type i64 = x: int | -0x8000_0000_0000_0000 <= x < 0x8000_0000_0000_0000

  datatype Option<T> = None | Some(value: T)

  /** A non-empty set has an element; it lets a loop pick the next key of a map it walks. */
  lemma ElementOf<T>(s: set<T>) returns (x: T)
    requires s != {}
    ensures x in s
  {
    if forall y :: y !in s {
      assert false;
    }
    x :| x in s;
  }

  /** A placement group: the pool it belongs to and its seed inside the pool. */
  datatype PgId = PgId(pool: int, seed: u32)

  /** The `(reported_epoch, reported_seq)` pair a PG's statistics are stamped with. */
  datatype VersionPair = VersionPair(epoch: u32, sequence: u64)

  /** `a > b` on version pairs: lexicographic, epoch first, then sequence. */
  predicate NewerThan(a: VersionPair, b: VersionPair)
  {
    a.epoch > b.epoch || (a.epoch == b.epoch && a.sequence > b.sequence)
  }

  /** Statistics of one PG as an OSD reports them; `state` is the PG state bit mask. */
  datatype PgStat = PgStat(reportedEpoch: u32, reportedSeq: u64, state: u64)
  {
    function Version(): VersionPair
    {
      VersionPair(reportedEpoch, reportedSeq)
    }
  }

  /** The 1, 5 and 15 minute values of one heartbeat measurement, in microseconds. */
  datatype Windows = Windows(oneMin: u32, fiveMin: u32, fifteenMin: u32)

  /** The heartbeat ping times of one network interface towards one peer. */
  datatype Interface = Interface(average: Windows, min: Windows, max: Windows, last: u32)

  /** Ping times from one OSD to one peer, on the back and the front network. */
  datatype HeartbeatPing = HeartbeatPing(back: Interface, front: Interface)

  /**
   * Statistics of one OSD. Only the heartbeat ping times, keyed by peer OSD,
   * are inspected by this core; the rest of an OSD's statistics is stored and
   * applied without being looked at, and is not modelled.
   */
  datatype OsdStat = OsdStat(hbPingtime: map<int, HeartbeatPing>)

  /** The committed, queryable PG map. */
  datatype PGMap = PGMap(
    version: nat,
    stamp: int,
    pgStat: map<PgId, PgStat>,
    osdStat: map<int, OsdStat>,
    osdEpochs: map<int, u32>)

  /** Updates staged for the next commit of the PG map. */
  datatype Incremental = Incremental(
    version: nat,
    stamp: int,
    pgStatUpdates: map<PgId, PgStat>,
    osdStatUpdates: map<int, OsdStat>,
    osdEpochs: map<int, u32>,
    pgRemovals: set<PgId>,
    osdStatRemovals: set<int>)

  function EmptyPgMap(): PGMap
  {
    PGMap(0, 0, map[], map[], map[])
  }

  /** A freshly constructed `PGMap::Incremental`: version 0, nothing staged. */
  function EmptyIncremental(): Incremental
  {
    Incremental(0, 0, map[], map[], map[], {}, {})
  }

  /**
   * `PGMap::apply_incremental` is not part of this model. It is assumed to
   * overwrite every staged key, then erase every key staged for removal, and
   * to take the incremental's version and stamp.
   */
  function ApplyIncremental(m: PGMap, inc: Incremental): PGMap
  {
    PGMap(
      inc.version,
      inc.stamp,
      (m.pgStat + inc.pgStatUpdates) - inc.pgRemovals,
      (m.osdStat + inc.osdStatUpdates) - inc.osdStatRemovals,
      (m.osdEpochs + inc.osdEpochs) - inc.osdStatRemovals)
  }
}
