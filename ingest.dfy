/**
 * What `ClusterState::ingest_pgstats` stages into the pending incremental and
 * what a commit (`update_delta_stats`) makes of it, as functions of the
 * committed map, the set of existing pools and the report; with the
 * properties of the admission and staleness filters.
 */
module PgStatsIngest {
  import opened PgMapTypes

  /** A decoded `MPGStats` message: its sender, the sender's epoch, the sender's own statistics and its PG statistics. */
  datatype PgStatsReport = PgStatsReport(from: int, epoch: u32, osdStat: OsdStat, pgStat: map<PgId, PgStat>)

  function Lookup(m: map<PgId, PgStat>, pgid: PgId): Option<PgStat>
  {
    if pgid in m then Some(m[pgid]) else None
  }

  /** The committed map already holds a strictly newer version pair for this PG. */
  predicate Superseded(committed: PGMap, pgid: PgId, stat: PgStat)
  {
    pgid in committed.pgStat && NewerThan(committed.pgStat[pgid].Version(), stat.Version())
  }

  /** A reported PG entry passes both filters: its pool exists and it is not superseded. */
  predicate Admitted(committed: PGMap, pools: set<int>, pgid: PgId, stat: PgStat)
  {
    pgid.pool in pools && !Superseded(committed, pgid, stat)
  }

  /** The entries of a report that pass both filters. */
  function AdmittedEntries(committed: PGMap, pools: set<int>, entries: map<PgId, PgStat>): map<PgId, PgStat>
  {
    map pgid | pgid in entries && Admitted(committed, pools, pgid, entries[pgid]) :: entries[pgid]
  }

  /**
   * The pending incremental after ingesting `report`: the sender's statistics
   * and epoch are staged unconditionally and every admitted PG entry
   * overwrites whatever is staged for that PG.
   */
  function StageReport(inc: Incremental, committed: PGMap, pools: set<int>, report: PgStatsReport): Incremental
  {
    inc.(osdStatUpdates := inc.osdStatUpdates[report.from := report.osdStat],
         osdEpochs := inc.osdEpochs[report.from := report.epoch],
         pgStatUpdates := inc.pgStatUpdates + AdmittedEntries(committed, pools, report.pgStat))
  }

  /** Every staged PG update would still pass both filters against `committed` and `pools`. */
  ghost predicate DeltaConsistent(committed: PGMap, pools: set<int>, inc: Incremental)
  {
    forall pgid :: pgid in inc.pgStatUpdates ==> Admitted(committed, pools, pgid, inc.pgStatUpdates[pgid])
  }

  /** The committed map after `update_delta_stats` at time `now`. */
  function Commit(committed: PGMap, inc: Incremental, now: int): (r: PGMap)
    ensures r.version == committed.version + 1
    ensures r.stamp == now
  {
    ApplyIncremental(committed, inc.(version := committed.version + 1, stamp := now))
  }

  /** Starting from an empty incremental, exactly the admitted entries of the report are staged. */
  lemma FreshDeltaStagesExactlyAdmitted(committed: PGMap, pools: set<int>, report: PgStatsReport)
    ensures forall pgid :: pgid in StageReport(EmptyIncremental(), committed, pools, report).pgStatUpdates <==>
      pgid in report.pgStat && pgid.pool in pools && !Superseded(committed, pgid, report.pgStat[pgid])
  {
  }

  /**
   * A reported entry is staged with its own value iff it is admitted; an entry
   * that is not admitted leaves what was staged for that PG as it was.
   */
  lemma StagedIffAdmitted(inc: Incremental, committed: PGMap, pools: set<int>, report: PgStatsReport, pgid: PgId)
    requires pgid in report.pgStat
    ensures Admitted(committed, pools, pgid, report.pgStat[pgid]) ==>
      Lookup(StageReport(inc, committed, pools, report).pgStatUpdates, pgid) == Some(report.pgStat[pgid])
    ensures !Admitted(committed, pools, pgid, report.pgStat[pgid]) ==>
      Lookup(StageReport(inc, committed, pools, report).pgStatUpdates, pgid) == Lookup(inc.pgStatUpdates, pgid)
  {
  }

  /** An entry whose pool does not exist never reaches the pending incremental. */
  lemma UnknownPoolNeverStaged(inc: Incremental, committed: PGMap, pools: set<int>, report: PgStatsReport)
    ensures forall pgid: PgId :: pgid.pool !in pools ==>
      Lookup(StageReport(inc, committed, pools, report).pgStatUpdates, pgid) == Lookup(inc.pgStatUpdates, pgid)
  {
  }

  /** An entry whose version pair equals the committed one is staged: only a strictly newer committed pair rejects. */
  lemma EqualVersionStaged(inc: Incremental, committed: PGMap, pools: set<int>, report: PgStatsReport, pgid: PgId)
    requires pgid in report.pgStat && pgid.pool in pools
    requires pgid in committed.pgStat && committed.pgStat[pgid].Version() == report.pgStat[pgid].Version()
    ensures Lookup(StageReport(inc, committed, pools, report).pgStatUpdates, pgid) == Some(report.pgStat[pgid])
  {
  }

  /**
   * The pending incremental is written, never consulted: what a report stages
   * on top of any incremental is what it stages on an empty one, laid over it.
   */
  lemma PendingNotConsulted(inc: Incremental, committed: PGMap, pools: set<int>, report: PgStatsReport)
    ensures StageReport(inc, committed, pools, report).pgStatUpdates ==
      inc.pgStatUpdates + StageReport(EmptyIncremental(), committed, pools, report).pgStatUpdates
  {
  }

  /**
   * The sender's statistics and epoch are always staged, however many PG
   * entries are dropped; version, stamp and removals are untouched.
   */
  lemma SenderStatAlwaysStaged(inc: Incremental, committed: PGMap, pools: set<int>, report: PgStatsReport)
    ensures var r := StageReport(inc, committed, pools, report);
      && report.from in r.osdStatUpdates && r.osdStatUpdates[report.from] == report.osdStat
      && report.from in r.osdEpochs && r.osdEpochs[report.from] == report.epoch
      && r.version == inc.version && r.stamp == inc.stamp
      && r.pgRemovals == inc.pgRemovals && r.osdStatRemovals == inc.osdStatRemovals
  {
  }

  /** Ingestion keeps every staged PG update admissible against the unchanged committed map and pools. */
  lemma StagingKeepsDeltaConsistent(inc: Incremental, committed: PGMap, pools: set<int>, report: PgStatsReport)
    requires DeltaConsistent(committed, pools, inc)
    ensures DeltaConsistent(committed, pools, StageReport(inc, committed, pools, report))
  {
  }

  /**
   * Committing a consistent delta never lowers a PG's committed version pair,
   * and every PG it adds belongs to an existing pool.
   */
  lemma {:induction false} CommitNeverRegresses(committed: PGMap, pools: set<int>, inc: Incremental, now: int)
    requires DeltaConsistent(committed, pools, inc) && inc.pgRemovals == {}
    ensures var r := Commit(committed, inc, now);
      && (forall pgid :: pgid in committed.pgStat ==>
            pgid in r.pgStat && !NewerThan(committed.pgStat[pgid].Version(), r.pgStat[pgid].Version()))
      && (forall pgid :: pgid in r.pgStat && pgid !in committed.pgStat ==> pgid.pool in pools)
  {
    var r := Commit(committed, inc, now);
    forall pgid | pgid in committed.pgStat
      ensures pgid in r.pgStat && !NewerThan(committed.pgStat[pgid].Version(), r.pgStat[pgid].Version())
    {
      if pgid in inc.pgStatUpdates {
        assert Admitted(committed, pools, pgid, inc.pgStatUpdates[pgid]);
      }
    }
    forall pgid | pgid in r.pgStat && pgid !in committed.pgStat
      ensures pgid.pool in pools
    {
      assert Admitted(committed, pools, pgid, inc.pgStatUpdates[pgid]);
    }
  }

  /**
   * With a commit between them, a later report carrying a lower version pair
   * is rejected and the committed statistics keep the higher one.
   */
  lemma CommittedHigherRejectsLower(
    committed: PGMap, pools: set<int>, pgid: PgId, first: PgStatsReport, second: PgStatsReport, t1: int, t2: int)
    requires pgid.pool in pools && pgid in first.pgStat && pgid in second.pgStat
    requires !Superseded(committed, pgid, first.pgStat[pgid])
    requires NewerThan(first.pgStat[pgid].Version(), second.pgStat[pgid].Version())
    ensures var m1 := Commit(committed, StageReport(EmptyIncremental(), committed, pools, first), t1);
      var m2 := Commit(m1, StageReport(EmptyIncremental(), m1, pools, second), t2);
      pgid in m2.pgStat && m2.pgStat[pgid] == first.pgStat[pgid]
  {
    var m1 := Commit(committed, StageReport(EmptyIncremental(), committed, pools, first), t1);
    assert m1.pgStat[pgid] == first.pgStat[pgid];
    assert Superseded(m1, pgid, second.pgStat[pgid]);
  }

  /**
   * Without a commit between them, a lower version pair ingested after a
   * higher one overwrites it in the pending incremental, and that lower pair is
   * what the next commit publishes: the staleness check reads only the
   * committed map.
   */
  lemma UncommittedHigherOverwrittenByLower(
    committed: PGMap, pools: set<int>, pgid: PgId, first: PgStatsReport, second: PgStatsReport, t: int)
    requires pgid.pool in pools && pgid in first.pgStat && pgid in second.pgStat
    requires !Superseded(committed, pgid, first.pgStat[pgid]) && !Superseded(committed, pgid, second.pgStat[pgid])
    requires NewerThan(first.pgStat[pgid].Version(), second.pgStat[pgid].Version())
    ensures var inc1 := StageReport(EmptyIncremental(), committed, pools, first);
      var inc2 := StageReport(inc1, committed, pools, second);
      var m := Commit(committed, inc2, t);
      pgid in m.pgStat && m.pgStat[pgid] == second.pgStat[pgid]
  {
  }
}
