/** The whole pipeline as one state machine. */
module Delivery {
  // Producers append to the stream, any number of consumers read, commit, acknowledge,
  // crash and reclaim, and analysts act on incidents in between. Commits are serialised.

  import opened Wrappers
  import opened Model
  import opened Tables
  import opened Parser
  import opened EntityStore
  import opened IngestConsumer
  import opened ExactlyOnce
  import opened IncidentsApi

  const BATCH_SIZE := 200

  type Consumer = nat

  // What a consumer holds in memory between reading and acknowledging.
  datatype Held = Held(ids: seq<nat>, committed: bool)

  // Entries are numbered in stream order; those at or past the cursor are undelivered.
  datatype Sys = Sys(
    stream: seq<Entry>,
    cursor: nat,
    pending: map<nat, Consumer>,
    acked: set<nat>,
    held: map<Consumer, Held>,
    db: Db,
    now: Time)

  datatype Event =
    | Publish(entries: seq<Entry>)
    | Read(reader: Consumer, count: nat)
    | Reclaim(claimer: Consumer, ids: seq<nat>)
    | Commit(writer: Consumer, readings: seq<(Time, Time)>)
    // An aborted transaction, a lost connection or a dead process: memory is gone.
    | Crash(victim: Consumer)
    | Ack(acker: Consumer)
    | Request(request: IncidentsApi.Request, at: Time)
    | Configure(tenant: TenantId, config: TenantConfig)

  // ---- one step ---------------------------------------------------------------

  function Range(from: nat, count: nat): seq<nat> {
    seq(count, i requires i >= 0 => from + i)
  }

  function Assign(pending: map<nat, Consumer>, ids: seq<nat>, c: Consumer): map<nat, Consumer> {
    if ids == [] then pending else Assign(pending, ids[..|ids| - 1], c)[ids[|ids| - 1] := c]
  }

  // The entries a consumer holds, with the clock readings of this attempt.
  function Batch(stream: seq<Entry>, ids: seq<nat>, readings: seq<(Time, Time)>): seq<Handled> {
    seq(Min(|ids|, |readings|), i requires 0 <= i < |ids| && i < |readings| =>
      Handled(if ids[i] < |stream| then stream[ids[i]] else Malformed, readings[i].0, readings[i].1))
  }

  predicate Enabled(s: Sys, e: Event) {
    match e
    case Publish(_) => true
    case Read(c, count) => c !in s.held && 0 < count <= BATCH_SIZE && s.cursor + count <= |s.stream|
    case Reclaim(c, ids) => c !in s.held && 0 < |ids| <= BATCH_SIZE && forall i | 0 <= i < |ids| :: ids[i] in s.pending
    case Commit(c, readings) => c in s.held && !s.held[c].committed && |readings| == |s.held[c].ids|
    case Crash(c) => c in s.held
    case Ack(c) => c in s.held && s.held[c].committed
    case Request(_, at) => s.now <= at
    case Configure(_, config) => config.windowMinutes > 0
  }

  // A disabled event changes nothing.
  function Next(env: Env, s: Sys, e: Event): Sys {
    if !Enabled(s, e) then s
    else match e
    case Publish(entries) => s.(stream := s.stream + entries)
    case Read(c, count) =>
      var ids := Range(s.cursor, count);
      s.(cursor := s.cursor + count, pending := Assign(s.pending, ids, c), held := s.held[c := Held(ids, false)])
    case Reclaim(c, ids) =>
      s.(pending := Assign(s.pending, ids, c), held := s.held[c := Held(ids, false)])
    case Commit(c, readings) =>
      s.(db := Committed(env, s.db, Batch(s.stream, s.held[c].ids, readings)),
         held := s.held[c := s.held[c].(committed := true)])
    case Crash(c) => s.(held := s.held - {c})
    case Ack(c) =>
      var done := set i | 0 <= i < |s.held[c].ids| :: s.held[c].ids[i];
      s.(acked := s.acked + done * s.pending.Keys, pending := s.pending - done, held := s.held - {c})
    case Request(r, at) => s.(db := Served(s.db, r, at), now := at)
    case Configure(tenant, config) => s.(db := s.db.(tenants := s.db.tenants[tenant := config]))
  }

  function RunAll(env: Env, s: Sys, events: seq<Event>): Sys {
    if events == [] then s
    else Next(env, RunAll(env, s, events[..|events| - 1]), events[|events| - 1])
  }

  // Nothing published, no incident, no alert; tenants may already be configured.
  function Initial(tenants: map<TenantId, TenantConfig>, now: Time): Sys {
    Sys([], 0, map[], {}, map[], Db(tenants, map[], [], map[], map[], map[]), now)
  }

  // ---- delivery: nothing is lost ----------------------------------------------

  function KeyAt(env: Env, entry: Entry, at: Time): AlertKey
    requires entry.Entry?
  {
    Parse(env.ops, entry.tenant, entry.raw, at).Key()
  }

  // The entry's row is stored, or the entry was discarded as malformed.
  ghost predicate EntryLanded(env: Env, entry: Entry, alerts: map<AlertKey, Stored>) {
    entry.Malformed? || exists at: Time :: KeyAt(env, entry, at) in alerts
  }

  ghost predicate DeliveryOk(env: Env, s: Sys) {
    && s.cursor <= |s.stream|
    && s.pending.Keys !! s.acked
    && (forall id: nat :: id in s.pending || id in s.acked <==> id < s.cursor)
    && (forall c | c in s.held :: forall i | 0 <= i < |s.held[c].ids| :: s.held[c].ids[i] < s.cursor)
    && (forall c | c in s.held && s.held[c].committed ::
          forall i | 0 <= i < |s.held[c].ids| && s.held[c].ids[i] < |s.stream| ::
          EntryLanded(env, s.stream[s.held[c].ids[i]], s.db.alerts))
    && (forall id | id in s.acked && id < |s.stream| :: EntryLanded(env, s.stream[id], s.db.alerts))
  }

  lemma {:induction false} AssignKeys(pending: map<nat, Consumer>, ids: seq<nat>, c: Consumer)
    ensures forall id: nat :: id in Assign(pending, ids, c) <==> id in pending || id in ids
  {
    if ids != [] {
      AssignKeys(pending, ids[..|ids| - 1], c);
      assert ids == ids[..|ids| - 1] + [ids[|ids| - 1]];
    }
  }

  lemma {:induction false} RowsHoldEachEntry(env: Env, batch: seq<Handled>, i: nat)
    requires i < |batch| && batch[i].entry.Entry?
    ensures RowOf(env, batch[i]) in RowsOf(env, batch)
  {
    if i < |batch| - 1 {
      RowsHoldEachEntry(env, batch[..|batch| - 1], i);
    }
  }

  lemma CommittedLands(env: Env, db: Db, stream: seq<Entry>, ids: seq<nat>, readings: seq<(Time, Time)>, i: nat)
    requires TablesOk(db) && |readings| == |ids| && i < |ids| && ids[i] < |stream|
    ensures EntryLanded(env, stream[ids[i]], Committed(env, db, Batch(stream, ids, readings)).alerts)
  {
    var batch := Batch(stream, ids, readings);
    CommitKeepsTables(env, db, batch);
    assert batch[i].entry == stream[ids[i]];
    if stream[ids[i]].Entry? {
      RowsHoldEachEntry(env, batch, i);
      var k :| 0 <= k < |RowsOf(env, batch)| && RowsOf(env, batch)[k] == RowOf(env, batch[i]);
      CommitStores(env, db, batch, RowsOf(env, batch)[k].Key());
      assert RowsOf(env, batch)[k].Key() == KeyAt(env, stream[ids[i]], readings[i].0);
    }
  }

  lemma LandedStays(env: Env, entry: Entry, before: map<AlertKey, Stored>, after: map<AlertKey, Stored>)
    requires EntryLanded(env, entry, before) && before.Keys <= after.Keys
    ensures EntryLanded(env, entry, after)
  {
    if entry.Entry? {
      var at: Time :| KeyAt(env, entry, at) in before;
      assert KeyAt(env, entry, at) in after;
    }
  }

  // Stored alerts are never removed by a step.
  lemma AlertsGrow(env: Env, s: Sys, e: Event)
    requires TablesOk(s.db)
    ensures TablesOk(Next(env, s, e).db)
    ensures s.db.alerts.Keys <= Next(env, s, e).db.alerts.Keys
    ensures CountsCover(s.db) ==> CountsCover(Next(env, s, e).db)
  {
    if Enabled(s, e) {
      match e
      case Commit(c, readings) =>
        var batch := Batch(s.stream, s.held[c].ids, readings);
        CommitKeepsTables(env, s.db, batch);
        FreshLand(s.db.alerts, RowsOf(env, batch));
      case Request(r, at) =>
        RequestKeepsTables(s.db, r, at);
      case Configure(_, _) =>
      case Publish(_) =>
      case Read(_, _) =>
      case Reclaim(_, _) =>
      case Crash(_) =>
      case Ack(_) =>
    }
  }

  lemma PublishDelivers(env: Env, s: Sys, e: Event)
    requires DeliveryOk(env, s) && (e.Publish? || e.Crash? || e.Configure?)
    ensures DeliveryOk(env, Next(env, s, e))
  {
  }

  lemma ReadDelivers(env: Env, s: Sys, e: Event)
    requires DeliveryOk(env, s) && e.Read?
    ensures DeliveryOk(env, Next(env, s, e))
  {
    if Enabled(s, e) {
      AssignKeys(s.pending, Range(s.cursor, e.count), e.reader);
      forall id: nat ensures id in Range(s.cursor, e.count) <==> s.cursor <= id < s.cursor + e.count {
        if s.cursor <= id < s.cursor + e.count { assert Range(s.cursor, e.count)[id - s.cursor] == id; }
      }
    }
  }

  lemma ReclaimDelivers(env: Env, s: Sys, e: Event)
    requires DeliveryOk(env, s) && e.Reclaim?
    ensures DeliveryOk(env, Next(env, s, e))
  {
    if Enabled(s, e) {
      AssignKeys(s.pending, e.ids, e.claimer);
    }
  }

  lemma AckDelivers(env: Env, s: Sys, e: Event)
    requires DeliveryOk(env, s) && e.Ack?
    ensures DeliveryOk(env, Next(env, s, e))
  {
  }

  lemma WriteDelivers(env: Env, s: Sys, e: Event)
    requires TablesOk(s.db) && DeliveryOk(env, s) && (e.Commit? || e.Request?)
    ensures DeliveryOk(env, Next(env, s, e))
  {
    hide Committed, Served, EntryLanded, Batch, TablesOk;
    var t := Next(env, s, e);
    AlertsGrow(env, s, e);
    forall id | id in t.acked && id < |t.stream| ensures EntryLanded(env, t.stream[id], t.db.alerts) {
      LandedStays(env, s.stream[id], s.db.alerts, t.db.alerts);
    }
    forall c, i | c in t.held && t.held[c].committed && 0 <= i < |t.held[c].ids| && t.held[c].ids[i] < |t.stream|
      ensures EntryLanded(env, t.stream[t.held[c].ids[i]], t.db.alerts)
    {
      if s.held[c].committed {
        LandedStays(env, s.stream[s.held[c].ids[i]], s.db.alerts, t.db.alerts);
      } else {
        CommittedLands(env, s.db, s.stream, s.held[c].ids, e.readings, i);
      }
    }
  }

  lemma StepDelivers(env: Env, s: Sys, e: Event)
    requires TablesOk(s.db) && DeliveryOk(env, s)
    ensures DeliveryOk(env, Next(env, s, e))
  {
    match e
    case Publish(_) => PublishDelivers(env, s, e);
    case Crash(_) => PublishDelivers(env, s, e);
    case Configure(_, _) => PublishDelivers(env, s, e);
    case Read(_, _) => ReadDelivers(env, s, e);
    case Reclaim(_, _) => ReclaimDelivers(env, s, e);
    case Ack(_) => AckDelivers(env, s, e);
    case Commit(_, _) => WriteDelivers(env, s, e);
    case Request(_, _) => WriteDelivers(env, s, e);
  }

  lemma InitialIsOk(env: Env, tenants: map<TenantId, TenantConfig>, now: Time)
    ensures var s := Initial(tenants, now); TablesOk(s.db) && DeliveryOk(env, s) && CountsCover(s.db) && Exact(s.db)
  {
    var db := Initial(tenants, now).db;
    forall e ensures |ListingKeys(db.alerts, e)| == CountAt(db.entities, e) {
      assert ListingKeys(db.alerts, e) == {};
    }
  }

  /** Over every run of publishes, reads, commits, aborts, crashes between commit and
      ack, reclaims, acks and requests: the tables stay sound, every published entry is
      in exactly one of undelivered, pending or acked, an acked entry has its row stored
      or was malformed - whichever consumer acked it - and no count is ever too low. */
  lemma {:induction false} NothingIsLost(env: Env, s: Sys, events: seq<Event>)
    requires TablesOk(s.db) && DeliveryOk(env, s)
    ensures var t := RunAll(env, s, events);
      && TablesOk(t.db) && DeliveryOk(env, t)
      && s.db.alerts.Keys <= t.db.alerts.Keys
      && (CountsCover(s.db) ==> CountsCover(t.db))
  {
    if events != [] {
      var front, last := events[..|events| - 1], events[|events| - 1];
      NothingIsLost(env, s, front);
      AlertsGrow(env, RunAll(env, s, front), last);
      StepDelivers(env, RunAll(env, s, front), last);
    }
  }

  // ---- exactly once -----------------------------------------------------------

  // No committed batch of the run brings a new key of a grouped tenant twice.
  ghost predicate CleanRun(env: Env, s: Sys, events: seq<Event>) {
    events == [] ||
    (CleanRun(env, s, events[..|events| - 1])
     && CleanStep(env, RunAll(env, s, events[..|events| - 1]), events[|events| - 1]))
  }

  ghost predicate CleanStep(env: Env, s: Sys, e: Event) {
    e.Commit? && Enabled(s, e) ==> CleanBatch(env, s.db, Batch(s.stream, s.held[e.writer].ids, e.readings))
  }

  lemma StepIsExactIffClean(env: Env, s: Sys, e: Event)
    requires TablesOk(s.db) && Exact(s.db)
    ensures CleanStep(env, s, e) ==> Exact(Next(env, s, e).db)
    ensures !CleanStep(env, s, e) ==> Overcounted(Next(env, s, e).db)
  {
    hide TablesOk, Exact, Overcounted, Committed, Batch;
    if Enabled(s, e) {
      match e
      case Commit(c, readings) =>
        var batch := Batch(s.stream, s.held[c].ids, readings);
        if CleanBatch(env, s.db, batch) {
          CleanCommitIsExact(env, s.db, batch);
        } else {
          ExactCovers(s.db);
          RepeatOvercounts(env, s.db, batch);
        }
      case Request(r, at) => RequestKeepsTables(s.db, r, at);
      case Configure(tenant, config) => SettingsKeepExact(s.db, s.db.tenants[tenant := config]);
      case Publish(_) =>
      case Read(_, _) =>
      case Reclaim(_, _) =>
      case Crash(_) =>
      case Ack(_) =>
    }
  }

  lemma ExactCovers(db: Db)
    requires Exact(db)
    ensures CountsCover(db)
  {
  }

  lemma SettingsKeepExact(db: Db, tenants: map<TenantId, TenantConfig>)
    requires Exact(db)
    ensures Exact(db.(tenants := tenants))
  {
  }

  lemma StepKeepsExcess(env: Env, s: Sys, e: Event, i: nat)
    requires TablesOk(s.db) && Excess(s.db, i)
    ensures Excess(Next(env, s, e).db, i)
  {
    if Enabled(s, e) {
      if e.Commit? {
        CommitKeepsExcess(env, s.db, Batch(s.stream, s.held[e.writer].ids, e.readings), i);
      } else if e.Request? {
        RequestKeepsTables(s.db, e.request, e.at);
      }
    }
  }

  lemma {:induction false} RunIsExactOrOver(env: Env, s: Sys, events: seq<Event>)
    requires TablesOk(s.db) && DeliveryOk(env, s) && Exact(s.db)
    ensures if CleanRun(env, s, events) then Exact(RunAll(env, s, events).db)
      else Overcounted(RunAll(env, s, events).db)
  {
    if events != [] {
      var front, last := events[..|events| - 1], events[|events| - 1];
      RunIsExactOrOver(env, s, front);
      NothingIsLost(env, s, front);
      var mid := RunAll(env, s, front);
      if CleanRun(env, s, front) {
        StepIsExactIffClean(env, mid, last);
      } else {
        var i :| Excess(mid.db, i);
        StepKeepsExcess(env, mid, last, i);
      }
    }
  }

  /** At-least-once delivery has an exactly-once effect, and exactly when: over any run,
      however often entries are redelivered, each incident's count is the number of
      stored alerts linked to it, each of its own fingerprint, and each entity's count
      is the number of grouped alerts that list it - if and only if no committed batch
      brought a new key of a grouped tenant twice. */
  lemma ExactlyOnceIffClean(env: Env, s: Sys, events: seq<Event>)
    requires TablesOk(s.db) && DeliveryOk(env, s) && Exact(s.db)
    ensures Exact(RunAll(env, s, events).db) <==> CleanRun(env, s, events)
  {
    RunIsExactOrOver(env, s, events);
    if !CleanRun(env, s, events) {
      OvercountedIsNotExact(RunAll(env, s, events).db);
    }
  }

  lemma StepLinksAll(env: Env, s: Sys, e: Event, tenant: TenantId)
    requires TablesOk(s.db) && GroupsFor(s.db, tenant) && AllLinked(s.db.alerts, tenant)
    ensures GroupsFor(Next(env, s, e).db, tenant) && AllLinked(Next(env, s, e).db.alerts, tenant)
  {
    if Enabled(s, e) {
      match e
      case Commit(c, readings) =>
        CommitKeepsTables(env, s.db, Batch(s.stream, s.held[c].ids, readings));
        CommitLinksAll(env, s.db, Batch(s.stream, s.held[c].ids, readings), tenant);
      case Request(r, at) => RequestKeepsTables(s.db, r, at);
      case Configure(_, _) =>
      case Publish(_) =>
      case Read(_, _) =>
      case Reclaim(_, _) =>
      case Crash(_) =>
      case Ack(_) =>
    }
  }

  lemma {:induction false} GroupedStayLinked(env: Env, s: Sys, events: seq<Event>, tenant: TenantId)
    requires TablesOk(s.db) && DeliveryOk(env, s)
    requires GroupsFor(s.db, tenant) && AllLinked(s.db.alerts, tenant)
    ensures GroupsFor(RunAll(env, s, events).db, tenant) && AllLinked(RunAll(env, s, events).db.alerts, tenant)
  {
    if events != [] {
      var front := events[..|events| - 1];
      GroupedStayLinked(env, s, front, tenant);
      NothingIsLost(env, s, front);
      StepLinksAll(env, RunAll(env, s, front), events[|events| - 1], tenant);
    }
  }

  // The alert is one of those linked to its incident, and the incident counts them all.
  ghost predicate IsCounted(db: Db, k: AlertKey)
    requires k in db.alerts && db.alerts[k].incident.Some? && db.alerts[k].incident.value < |db.incidents|
  {
    var i := db.alerts[k].incident.value;
    k in LinkedKeys(db.alerts, i) && |LinkedKeys(db.alerts, i)| <= db.incidents[i].alertCount
  }

  /** End to end, from an empty system: once acknowledged, a well-formed entry whose
      timestamp parses and whose tenant was configured from the start is stored under
      its one key, linked to one incident of its tenant, and counted there. */
  lemma AckedAlertIsCounted(env: Env, tenants: map<TenantId, TenantConfig>, now: Time, events: seq<Event>, id: nat)
    requires var t := RunAll(env, Initial(tenants, now), events);
      && id in t.acked && id < |t.stream| && t.stream[id].Entry?
      && t.stream[id].raw.timestamp.Some?
      && t.stream[id].tenant in tenants && tenants[t.stream[id].tenant].windowMinutes > 0
    ensures var t := RunAll(env, Initial(tenants, now), events);
      forall at: Time :: var k := KeyAt(env, t.stream[id], at);
        && k in t.db.alerts
        && t.db.alerts[k].incident.Some?
        && t.db.alerts[k].incident.value < |t.db.incidents|
        && t.db.incidents[t.db.alerts[k].incident.value].tenant == t.stream[id].tenant
        && IsCounted(t.db, k)
  {
    hide RunAll, Clamp;
    var s := Initial(tenants, now);
    var t := RunAll(env, s, events);
    InitialIsOk(env, tenants, now);
    NothingIsLost(env, s, events);
    GroupedStayLinked(env, s, events, t.stream[id].tenant);
    forall at: Time
      ensures var k := KeyAt(env, t.stream[id], at);
        && k in t.db.alerts
        && t.db.alerts[k].incident.Some?
        && t.db.alerts[k].incident.value < |t.db.incidents|
        && t.db.incidents[t.db.alerts[k].incident.value].tenant == t.stream[id].tenant
        && IsCounted(t.db, k)
    {
      var k := KeyAt(env, t.stream[id], at);
      var when: Time :| KeyAt(env, t.stream[id], when) in t.db.alerts;
      KeyIsStableIffTimestampParses(env.ops, t.stream[id].tenant, t.stream[id].raw);
      assert KeyAt(env, t.stream[id], when) == k;
      var i := t.db.alerts[k].incident.value;
      assert k in LinkedKeys(t.db.alerts, i);
    }
  }

  /** Handing any consumer entries that already landed, if their timestamps parse,
      changes no table at all, whatever clocks it reads. */
  lemma RedeliveryOfLanded(env: Env, s: Sys, e: Event)
    requires TablesOk(s.db) && e.Commit? && Enabled(s, e)
    requires forall i | 0 <= i < |s.held[e.writer].ids| ::
      var id := s.held[e.writer].ids[i];
      id < |s.stream| && EntryLanded(env, s.stream[id], s.db.alerts)
      && (s.stream[id].Entry? ==> s.stream[id].raw.timestamp.Some?)
    ensures Next(env, s, e).db == s.db
  {
    var batch := Batch(s.stream, s.held[e.writer].ids, e.readings);
    forall i | 0 <= i < |batch| && batch[i].entry.Entry? ensures RowOf(env, batch[i]).Key() in s.db.alerts {
      var entry := s.stream[s.held[e.writer].ids[i]];
      var at: Time :| KeyAt(env, entry, at) in s.db.alerts;
      assert KeyAt(env, entry, at) == KeyAt(env, entry, batch[i].parsedAt);
    }
    RowsAreStored(env, batch, s.db.alerts);
    UnchangedIffAllStored(env, s.db, batch);
  }

  lemma {:induction false} RowsAreStored(env: Env, batch: seq<Handled>, alerts: map<AlertKey, Stored>)
    requires forall i | 0 <= i < |batch| && batch[i].entry.Entry? :: RowOf(env, batch[i]).Key() in alerts
    ensures forall i | 0 <= i < |RowsOf(env, batch)| :: RowsOf(env, batch)[i].Key() in alerts
  {
    if batch != [] {
      var front := batch[..|batch| - 1];
      forall i | 0 <= i < |front| && front[i].entry.Entry? ensures RowOf(env, front[i]).Key() in alerts {
        assert front[i] == batch[i];
      }
      RowsAreStored(env, front, alerts);
    }
  }
}
