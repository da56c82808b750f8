/**
 * The manager's `ClusterState`: the committed PG map, the incremental
 * staged for its next commit, the pools the last OSD map listed, and the
 * maps and digests the manager mirrors, each replaced whole by its setter.
 */
module Mgr {
  import opened PgMapTypes
  import opened PgStatsIngest
  import opened OsdNetwork

  /** A pool of an OSD map; only its id (the key it is stored under) is used here. */
  datatype PgPool = PgPool(pgNum: u32)

  /** The part of an OSD map this core reads: its pools, keyed by pool id. */
  datatype OsdMap = OsdMap(epoch: u32, pools: map<i64, PgPool>, up: set<int>)

  /** Replicated maps the manager mirrors, each an encoded snapshot of some epoch. */
  datatype FsMap = FsMap(epoch: u32, encoded: seq<bv8>)
  datatype MgrMap = MgrMap(epoch: u32, encoded: seq<bv8>)
  datatype ServiceMap = ServiceMap(epoch: u32, encoded: seq<bv8>)

  /** The payload of an `MMgrDigest` message. */
  datatype MgrDigest = MgrDigest(healthJson: string, monStatusJson: string)

  /**
   * What one of `PGMapUpdater::check_osd_map` and `PGMapUpdater::check_down_pgs`
   * stages. Both are outside this model; they are assumed to add per-key
   * updates and removals to the pending incremental and to leave its version
   * and stamp alone.
   */
  datatype Correction = Correction(
    pgStatUpdates: map<PgId, PgStat>,
    pgRemovals: set<PgId>,
    osdStatUpdates: map<int, OsdStat>,
    osdStatRemovals: set<int>)

  /** A corrective pass: from the new OSD map, the committed map and what is pending, the entries it stages. */
  type Updater = (OsdMap, PGMap, Incremental) -> Correction

  /** The pending incremental after a corrective pass has staged `c` into it. */
  function Absorb(inc: Incremental, c: Correction): (r: Incremental)
    ensures r.version == inc.version && r.stamp == inc.stamp
    ensures inc.pgStatUpdates.Keys <= r.pgStatUpdates.Keys && inc.pgRemovals <= r.pgRemovals
  {
    inc.(pgStatUpdates := inc.pgStatUpdates + c.pgStatUpdates,
         pgRemovals := inc.pgRemovals + c.pgRemovals,
         osdStatUpdates := inc.osdStatUpdates + c.osdStatUpdates,
         osdStatRemovals := inc.osdStatRemovals + c.osdStatRemovals)
  }

  /**
   * The incremental `notify_osdmap` applies: the pending one stamped with
   * `now` and the next version, then the two corrective passes staged into it.
   */
  function TopologyDelta(
    committed: PGMap, pending: Incremental, osdMap: OsdMap, now: int, checkOsdMap: Updater, checkDownPgs: Updater)
    : (r: Incremental)
    ensures r.version == committed.version + 1 && r.stamp == now
    ensures pending.pgStatUpdates.Keys <= r.pgStatUpdates.Keys
  {
    var staged := pending.(stamp := now, version := committed.version + 1);
    var afterOsdMap := Absorb(staged, checkOsdMap(osdMap, committed, staged));
    Absorb(afterOsdMap, checkDownPgs(osdMap, committed, afterOsdMap))
  }

  class ClusterState {
    /** An opaque handle on the objecter; the objecter itself is not part of this model. */
    var objecter: nat
    var fsmap: FsMap
    var mgrMap: MgrMap
    var serviceMap: ServiceMap
    var healthJson: string
    var monStatusJson: string

    var pgMap: PGMap
    var pendingInc: Incremental
    var existingPools: set<int>

    /**
     * Between calls, every PG update pending in the incremental belongs to a
     * pool the last OSD map listed and is not older than the committed
     * statistics of its PG; nothing is pending removal.
     */
    ghost predicate Valid()
      reads this
    {
      && DeltaConsistent(pgMap, existingPools, pendingInc)
      && pendingInc.pgRemovals == {} && pendingInc.osdStatRemovals == {}
    }

    constructor (objecter: nat, mgrMap: MgrMap)
      ensures Valid()
      ensures this.objecter == objecter && this.mgrMap == mgrMap
      ensures fsmap == FsMap(0, []) && serviceMap == ServiceMap(0, [])
      ensures healthJson == [] && monStatusJson == []
      ensures pgMap == EmptyPgMap() && pendingInc == EmptyIncremental() && existingPools == {}
    {
      this.objecter := objecter;
      this.mgrMap := mgrMap;
      fsmap := FsMap(0, []);
      serviceMap := ServiceMap(0, []);
      healthJson := [];
      monStatusJson := [];
      pgMap := EmptyPgMap();
      pendingInc := EmptyIncremental();
      existingPools := {};
    }

    method SetObjecter(objecter: nat)
      modifies this`objecter
      ensures this.objecter == objecter
    {
      this.objecter := objecter;
    }

    method SetFsmap(newFsmap: FsMap)
      modifies this`fsmap
      ensures fsmap == newFsmap
    {
      fsmap := newFsmap;
    }

    method SetMgrMap(newMgrMap: MgrMap)
      modifies this`mgrMap
      ensures mgrMap == newMgrMap
    {
      mgrMap := newMgrMap;
    }

    method SetServiceMap(newServiceMap: ServiceMap)
      modifies this`serviceMap
      ensures serviceMap == newServiceMap
    {
      serviceMap := newServiceMap;
    }

    method LoadDigest(m: MgrDigest)
      modifies this`healthJson, this`monStatusJson
      ensures healthJson == m.healthJson && monStatusJson == m.monStatusJson
    {
      healthJson := m.healthJson;
      monStatusJson := m.monStatusJson;
    }

    /**
     * `ingest_pgstats`: stage the sender's statistics, then every PG entry
     * whose pool exists and whose committed statistics are not strictly
     * newer. Only the pending incremental changes.
     */
    method IngestPgStats(stats: PgStatsReport)
      requires Valid()
      modifies this`pendingInc
      ensures Valid()
      ensures pendingInc == StageReport(old(pendingInc), pgMap, existingPools, stats)
    {
      pendingInc := pendingInc.(osdStatUpdates := pendingInc.osdStatUpdates[stats.from := stats.osdStat],
                                osdEpochs := pendingInc.osdEpochs[stats.from := stats.epoch]);
      ghost var base := pendingInc;
      var left := stats.pgStat.Keys;
      while left != {}
        invariant left <= stats.pgStat.Keys
        invariant pendingInc == base.(pgStatUpdates := pendingInc.pgStatUpdates)
        invariant forall pgid :: pgid in pendingInc.pgStatUpdates <==>
          pgid in base.pgStatUpdates
          || (pgid in stats.pgStat && pgid !in left && Admitted(pgMap, existingPools, pgid, stats.pgStat[pgid]))
        invariant forall pgid :: pgid in pendingInc.pgStatUpdates ==>
          pendingInc.pgStatUpdates[pgid] ==
            if pgid in stats.pgStat && pgid !in left && Admitted(pgMap, existingPools, pgid, stats.pgStat[pgid])
            then stats.pgStat[pgid] else base.pgStatUpdates[pgid]
        decreases left
      {
        ghost var somePg := ElementOf(left);
        var pgid :| pgid in left;
        left := left - {pgid};
        var pgStats := stats.pgStat[pgid];
        // A PG that, according to the last OSD map, should not exist.
        if pgid.pool !in existingPools {
          continue;
        }
        // Statistics already committed from a more recent report.
        if pgid in pgMap.pgStat && NewerThan(pgMap.pgStat[pgid].Version(), pgStats.Version()) {
          continue;
        }
        pendingInc := pendingInc.(pgStatUpdates := pendingInc.pgStatUpdates[pgid := pgStats]);
      }
      assert pendingInc.pgStatUpdates == base.pgStatUpdates + AdmittedEntries(pgMap, existingPools, stats.pgStat);
      StagingKeepsDeltaConsistent(old(pendingInc), pgMap, existingPools, stats);
    }

    /**
     * `update_delta_stats`: stamp the pending incremental with `now` and the
     * next version, apply it to the committed map and start a fresh one.
     * The committed version advances by exactly one and no PG's committed
     * version pair goes down.
     */
    method UpdateDeltaStats(now: int)
      requires Valid()
      modifies this`pgMap, this`pendingInc
      ensures Valid()
      ensures pgMap == Commit(old(pgMap), old(pendingInc), now)
      ensures pgMap.version == old(pgMap.version) + 1
      ensures pendingInc == EmptyIncremental()
      ensures forall pgid :: pgid in old(pgMap.pgStat) ==>
        pgid in pgMap.pgStat && !NewerThan(old(pgMap.pgStat[pgid].Version()), pgMap.pgStat[pgid].Version())
    {
      CommitNeverRegresses(pgMap, existingPools, pendingInc, now);
      pendingInc := pendingInc.(stamp := now);
      pendingInc := pendingInc.(version := pgMap.version + 1);
      pgMap := ApplyIncremental(pgMap, pendingInc);
      pendingInc := EmptyIncremental();
    }

    /**
     * `notify_osdmap`, called with the lock already held: stamp the pending
     * incremental with `now` and the next version, stage the corrections of
     * `check_osd_map`, replace the existing pools by exactly the OSD map's
     * pool ids, stage the corrections of `check_down_pgs`, apply the
     * incremental and start a fresh one.
     */
    method NotifyOsdmap(osdMap: OsdMap, now: int, checkOsdMap: Updater, checkDownPgs: Updater, ghost lockHeld: bool)
      requires lockHeld
      requires Valid()
      modifies this`pgMap, this`pendingInc, this`existingPools
      ensures Valid()
      ensures existingPools == osdMap.pools.Keys
      ensures pgMap == ApplyIncremental(old(pgMap),
        TopologyDelta(old(pgMap), old(pendingInc), osdMap, now, checkOsdMap, checkDownPgs))
      ensures pgMap.version == old(pgMap.version) + 1
      ensures pendingInc == EmptyIncremental()
    {
      pendingInc := pendingInc.(stamp := now);
      pendingInc := pendingInc.(version := pgMap.version + 1);

      pendingInc := Absorb(pendingInc, checkOsdMap(osdMap, pgMap, pendingInc));

      ghost var corrected := pendingInc;
      existingPools := {};
      var left := osdMap.pools.Keys;
      while left != {}
        invariant left <= osdMap.pools.Keys
        invariant existingPools == osdMap.pools.Keys - left
        invariant pgMap == old(pgMap) && pendingInc == corrected
        decreases left
      {
        ghost var somePool := ElementOf(left);
        var pool :| pool in left;
        existingPools := existingPools + {pool};
        left := left - {pool};
      }

      pendingInc := Absorb(pendingInc, checkDownPgs(osdMap, pgMap, pendingInc));

      pgMap := ApplyIncremental(pgMap, pendingInc);
      pendingInc := EmptyIncremental();
    }

    /**
     * The `dump_osd_network` admin command: resolve the threshold, then
     * report every heartbeat entry of the committed map that passes it, in
     * descending order.
     */
    method AsokCommand(adminCommand: string, value: Option<i64>, warnSlowPingTime: u64, graceDefault: i64)
      returns (report: NetworkPingTimes)
      requires adminCommand == "dump_osd_network"
      ensures report.threshold == ResolveThreshold(value, warnSlowPingTime, graceDefault)
      ensures Descending(report.entries)
      ensures forall e :: e in report.entries <==> IsCandidate(pgMap.osdStat, report.threshold, e)
    {
      var threshold := ResolveThreshold(value, warnSlowPingTime, graceDefault);
      report := DumpOsdNetwork(pgMap.osdStat, threshold);
    }
  }
}
