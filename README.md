# Manager cluster-state aggregator (Ceph `ClusterState`) in Dafny

This project models the placement-group statistics aggregator of the Ceph
manager daemon, `ClusterState` in `src/mgr/ClusterState.cc`, and proves
properties of the model.

- **Ingestion** (`ingest_pgstats`). An OSD's `MPGStats` report is staged into
  the pending `PGMap::Incremental`. The sender's own statistics and epoch are
  always staged. A PG entry is dropped when its pool is not among the
  existing pools. It is also dropped when the committed `PGMap` already holds
  a strictly newer `(reported_epoch, reported_seq)` pair for that PG.
  Every other entry overwrites whatever is staged for its PG.
- **Commit** (`update_delta_stats`). The pending incremental gets the
  current time and version `pg_map.version + 1`. It is applied to the
  committed map, and a fresh empty incremental replaces it.
- **Topology sync** (`notify_osdmap`). It is called with the lock already
  held. It stamps the incremental and stages the two corrective passes. It
  replaces the existing pools with exactly the OSD map's pool ids. Then it
  commits.
- **Diagnostics** (`asok_command`, `dump_osd_network`). The command first
  resolves the threshold and clamps it at 0. Every heartbeat record
  (from, to) gives a back entry. It also gives a front entry when the front
  interface's last sample is non-zero. Each entry's ping time is the largest
  of its three rolling averages. An entry is kept when the threshold is 0 or
  its ping time reaches the threshold. The kept entries go into a `std::set`
  ordered by `mgr_ping_time_t::operator<`, which the command emits in
  reverse.
- **Setters** (`set_objecter`, `set_fsmap`, `set_mgr_map`,
  `set_service_map`, `load_digest`). Each replaces its fields whole.

Files:

- `types.dfy`: module `PgMapTypes`. It holds the integer widths, PG ids,
  statistics, version pairs, heartbeat ping records, `PGMap`, `Incremental`
  and the assumed `ApplyIncremental`.
- `ingest.dfy`: module `PgStatsIngest`. It states, as functions, what
  ingestion stages (`StageReport`) and what a commit yields (`Commit`). The
  lemmas there prove the filters' properties.
- `osd_network.dfy`: module `OsdNetwork`. It holds the comparator as written
  and the intended order. It models `std::set` insertion on a sorted
  sequence, the nested collection loops and the reverse emission. It also
  resolves the threshold. The lemmas prove order, filtering and determinism.
- `cluster_state.dfy`: module `Mgr`. It holds the class `ClusterState`. Its
  fields are the source's fields, and its methods update them step by step.

## Behaviour as written

These points follow the code. A description of the design that assumes
otherwise does not match it.

- The staleness check reads only the committed `pg_map`, never the pending
  incremental. Suppose a report with a lower version pair arrives after a
  higher one but before the next commit. It then overwrites the staged
  higher one, and the commit publishes the lower pair
  (`UncommittedHigherOverwrittenByLower`). Ingestion is therefore not
  independent of arrival order between commits. With a commit in between,
  the lower report is rejected (`CommittedHigherRejectsLower`). Committing
  never lowers a committed pair (`CommitNeverRegresses`).
- Equal version pairs are accepted, because only a strictly newer committed
  pair rejects an entry (`EqualVersionStaged`).
- The output is the reverse of the comparator's ascending order. It is
  sorted by descending ping time, then descending source OSD, then
  descending target OSD. On a full tie the front entry comes before the back
  entry (`OutputOrder`).
- `operator<` returns `back` on a full tie, so a back entry compares less
  than itself (`SourceLessNotIrreflexive`). No two entries the command
  builds share a key (`CandidateKeysDistinct`), and on different keys the
  operator agrees with the intended strict order (`SourceLessAgreesOffTies`).
  So the set behaves as a set ordered by that strict order, which is how
  the model keeps it.

## Model

| member | source | states |
|---|---|---|
| `PgStatsIngest.FreshDeltaStagesExactlyAdmitted` | src/mgr/ClusterState.cc:78-105 | from an empty incremental, a PG is staged iff the report has it, its pool exists and the committed pair is not strictly newer |
| `PgStatsIngest.StagedIffAdmitted` | src/mgr/ClusterState.cc:84-104 | an admitted entry ends up staged with its reported value; a dropped entry leaves what was staged for its PG unchanged |
| `PgStatsIngest.UnknownPoolNeverStaged` | src/mgr/ClusterState.cc:82-92 | an entry whose pool is not among the existing pools never reaches the pending incremental |
| `PgStatsIngest.EqualVersionStaged` | src/mgr/ClusterState.cc:95-102 | an entry whose version pair equals the committed one is staged |
| `PgStatsIngest.PendingNotConsulted` | src/mgr/ClusterState.cc:95-104 | what a report stages does not depend on the pending incremental; it is laid over it |
| `PgStatsIngest.SenderStatAlwaysStaged` | src/mgr/ClusterState.cc:74-76 | the sender's statistics and epoch are staged whatever happens to the PG entries; version, stamp and removals are untouched |
| `PgStatsIngest.StagingKeepsDeltaConsistent` | src/mgr/ClusterState.cc:84-104 | ingestion keeps every staged PG update admissible against the committed map and the existing pools |
| `PgStatsIngest.Commit` | src/mgr/ClusterState.cc:108-127 | a commit publishes version `old version + 1` with the given stamp |
| `PgStatsIngest.CommitNeverRegresses` | src/mgr/ClusterState.cc:93-104 | committing a consistent delta never lowers a committed version pair, and every PG it adds is in an existing pool |
| `PgStatsIngest.CommittedHigherRejectsLower` | src/mgr/ClusterState.cc:95-102 | once a higher pair is committed, a later lower report is dropped and the committed statistics stay those of the higher report |
| `PgStatsIngest.UncommittedHigherOverwrittenByLower` | src/mgr/ClusterState.cc:95-104 | without a commit in between, a lower report overwrites a staged higher one and the next commit publishes the lower statistics |
| `OsdNetwork.MaxOfWindows` | src/mgr/ClusterState.cc:257-258 | the ping time is at least each of the three rolling averages and equal to one of them |
| `OsdNetwork.SourceLessAgreesOffTies` | src/mgr/ClusterState.cc:236-250 | on entries with different keys, `operator<` is the strict order ascending by (pingtime, from, to) with back before front |
| `OsdNetwork.SourceLessNotIrreflexive` | src/mgr/ClusterState.cc:249 | `operator<` holds of an entry and itself exactly when the entry is a back entry |
| `OsdNetwork.BeforeStrictTotal` | src/mgr/ClusterState.cc:236-250 | the intended order is irreflexive, asymmetric and transitive, and total on different keys |
| `OsdNetwork.CandidateKeysDistinct` | src/mgr/ClusterState.cc:254-297 | two entries the command builds with the same key are the same entry |
| `OsdNetwork.CandidateFacts` | src/mgr/ClusterState.cc:256-295 | a kept entry's averages, minima, maxima and last sample come from the interface it names; a front entry needs a non-zero last front sample; its ping time is the largest average and passes the threshold |
| `OsdNetwork.ZeroThresholdKeepsEveryRecord` | src/mgr/ClusterState.cc:259-280 | with threshold 0 every record yields its back entry, and it yields its front entry iff the last front sample is non-zero |
| `OsdNetwork.Insert` | src/mgr/ClusterState.cc:273 | insertion keeps the set ascending; it adds exactly the new entry when no element has its key, and changes nothing otherwise |
| `OsdNetwork.CollectSorted` | src/mgr/ClusterState.cc:253-297 | the nested loops leave the set ascending and holding exactly the entries that are built and pass the threshold |
| `OsdNetwork.DumpOsdNetwork` | src/mgr/ClusterState.cc:303-304 | the emitted entries are exactly the kept entries in descending order; the assertion that each passes the threshold holds |
| `OsdNetwork.DescendingUnique` | src/mgr/ClusterState.cc:253-303 | two descending sequences with the same elements are equal, so the report does not depend on map iteration order |
| `OsdNetwork.OutputOrder` | src/mgr/ClusterState.cc:303 | output is by descending ping time, then descending source, then descending target, with the front entry first on a full tie |
| `OsdNetwork.AsInt64` | src/mgr/ClusterState.cc:216 | the unsigned-to-signed 64-bit cast keeps the bit pattern modulo 2^64 |
| `OsdNetwork.ResolveThreshold` | src/mgr/ClusterState.cc:213-224 | the threshold is never negative: the given value clamped at 0, else the configured warning time (0 when it wraps negative), else the grace-derived default clamped at 0 |
| `Mgr.Absorb` | src/mgr/ClusterState.cc:137 | a corrective pass keeps the incremental's version and stamp and only adds staged keys and removals |
| `Mgr.TopologyDelta` | src/mgr/ClusterState.cc:133-150 | the incremental applied on a topology change carries version `old version + 1` and the given stamp, and keeps every PG update that was pending |
| `Mgr.ClusterState.constructor` | src/mgr/ClusterState.cc:26-36 | a new state has an empty PG map, an empty incremental, no existing pools and the given manager map |
| `Mgr.ClusterState.SetObjecter` | src/mgr/ClusterState.cc:38-43 | replaces the objecter and nothing else |
| `Mgr.ClusterState.SetFsmap` | src/mgr/ClusterState.cc:45-50 | replaces the filesystem map and nothing else |
| `Mgr.ClusterState.SetMgrMap` | src/mgr/ClusterState.cc:52-56 | replaces the manager map and nothing else |
| `Mgr.ClusterState.SetServiceMap` | src/mgr/ClusterState.cc:58-62 | replaces the service map and nothing else |
| `Mgr.ClusterState.LoadDigest` | src/mgr/ClusterState.cc:64-68 | replaces the health and monitor-status texts and nothing else |
| `Mgr.ClusterState.IngestPgStats` | src/mgr/ClusterState.cc:70-106 | only the pending incremental changes, and it becomes `StageReport` of its old value; the object invariant is kept |
| `Mgr.ClusterState.UpdateDeltaStats` | src/mgr/ClusterState.cc:108-127 | the committed map becomes the commit of the pending incremental, its version rises by exactly 1, no PG's committed pair goes down, and the incremental is empty afterwards |
| `Mgr.ClusterState.NotifyOsdmap` | src/mgr/ClusterState.cc:129-168 | with the lock held: the existing pools become exactly the OSD map's pool ids, the topology delta is applied, the version rises by exactly 1, and the incremental is empty afterwards |
| `Mgr.ClusterState.AsokCommand` | src/mgr/ClusterState.cc:207-336 | `dump_osd_network` reports the resolved threshold and exactly the kept entries of the committed map, in descending order |

## Left out

- `src/rgw/rgw_object_expirer_core.h`: it holds only declarations of an unrelated object-expiry worker thread and RADOS calls; nothing there is modelled.
- Locking (`Mutex::Locker`, `std::lock_guard`, `is_locked_by_me`): every operation is modelled as one atomic step. The requirement of `notify_osdmap` that the caller hold the lock is a ghost `lockHeld` flag in its precondition.
- `PGMap::apply_incremental` and `PGMap::Incremental::update_stat` are not part of this model. They are assumed to be per-key overwrites: staged updates first, then staged removals, with the version and stamp taken from the incremental.
- `PGMapUpdater::check_osd_map` and `PGMapUpdater::check_down_pgs` are not part of this model. They are function parameters, assumed to stage only per-key updates and removals (`Correction`). The `need_check_down_pg_osds` set is not modelled, because it is unused when every OSD is checked.
- Default threshold derivation: `osd_heartbeat_grace * 1000000 * mon_warn_on_slow_ping_ratio` is computed in floating point. The model takes its integer result as the input `graceDefault`. The configuration lookups are inputs too.
- Argument parsing by `cmd_getval` and the `bad_cmd_get` catch in `ClusterSocketHook::call`: the command argument is an `Option<i64>` that is already parsed.
- Unknown admin commands: `ceph_abort_msg` is modelled as the precondition `adminCommand == "dump_osd_network"`.
- `ceph_clock_now` is the parameter `now`. The `dout` logs, the JSON dumps of the map and the incremental, and the Formatter's output text and format selection are not modelled. The report is a value (`NetworkPingTimes`).
- Admin-socket registration and teardown (`ClusterSocketHook`, `final_init`, `shutdown`), and the `monc`, `pgservice` and `asok_hook` members, are not modelled.
- Iteration order of `std::map`: the loops take keys in any order. The results are proved not to depend on it (`DescendingUnique`, and the ingestion and pool loops reach the same state for every order).
- Statistic payloads: only the fields this core reads are modelled. For a PG these are the version pair and the state mask. For an OSD they are the heartbeat ping records. For a pool, only its id is used.
- `Mgr.ClusterState.UpdateDeltaStats`, `Mgr.ClusterState.NotifyOsdmap`: `pg_map.version + 1` is computed on an unbounded `nat`, so a 64-bit `version_t` wrap-around is not modelled.
- Pool id width: `pg_t::pool()` is unsigned and `existing_pools` holds signed 64-bit ids. Both are modelled as `int`, so no conversion happens between them.
