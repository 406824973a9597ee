/** What accepted policies promise, lifted to every run of the system: a response is due
    before the resolution, and while a case is unanswered and nobody lowers its severity
    its response is never due later than it was. */
module SystemSla {
  import opened Wrappers
  import opened Model
  import opened SlaPolicy
  import opened Sla
  import opened SlaRuns
  import opened Tables
  import opened Grouping
  import opened IngestConsumer
  import opened TableLaws
  import opened ExactlyOnce
  import opened IncidentsApi
  import opened Delivery

  // ---- response is due before resolution --------------------------------------

  ghost predicate AcceptedTenants(tenants: map<TenantId, TenantConfig>) {
    forall t | t in tenants :: Accepted(tenants[t].policy)
  }

  // Policies reach the system only through their validation.
  ghost predicate ConfiguresAccepted(e: Event) { e.Configure? ==> Accepted(e.config.policy) }

  ghost predicate AllOrdered(rows: seq<IncidentRow>) {
    forall i | 0 <= i < |rows| :: OrderedDeadlines(rows[i].clock)
  }

  lemma StepKeepsOrdered(c: Clock, step: Step, now: Time)
    requires Coupled(c) && OrderedDeadlines(c) && (step.Attach? ==> Accepted(step.policy))
    ensures OrderedDeadlines(ApplyStep(c, step, now))
  {
    if step.Edit? { EditTable(c, step, now); }
    if step.Attach? { BandIsOrdered(step.policy, step.level); }
  }

  lemma PlaceKeepsOrdered(incidents: seq<IncidentRow>, counters: map<TenantId, int>, a: Alert, config: TenantConfig,
      at: Time, size: Sizer)
    requires AllCoupled(incidents) && AllOrdered(incidents) && Accepted(config.policy)
    ensures AllOrdered(Place(incidents, counters, a, config, at, size).incidents)
  {
    var open := FindOpen(incidents, a.tenant, a.fingerprint);
    if open.Some? {
      StepKeepsOrdered(incidents[open.value].clock, Step.Attach(a.timestamp, a.ruleLevel, config.policy), 0);
    } else {
      BandIsOrdered(config.policy, a.ruleLevel);
    }
  }

  lemma {:induction false} GroupAllKeepsOrdered(env: Env, db: Db, rows: seq<Row>)
    requires TablesOk(db) && AcceptedTenants(db.tenants) && AllOrdered(db.incidents)
    requires forall r | r in rows :: r.Key() in db.alerts
    ensures AllOrdered(GroupAll(env, db, rows).incidents)
  {
    if rows != [] {
      var front, last := rows[..|rows| - 1], rows[|rows| - 1];
      GroupAllKeepsOrdered(env, db, front);
      GroupAllKeepsTables(env, db, front);
      var mid := GroupAll(env, db, front);
      if GroupsFor(mid, last.alert.tenant) {
        var config := mid.tenants[last.alert.tenant];
        PlaceKeepsOrdered(mid.incidents, mid.counters, last.alert, config, last.groupedAt, env.size);
      }
    }
  }

  lemma {:induction false} EditRowsKeepOrdered(incidents: seq<IncidentRow>, ids: seq<nat>, step: Step, now: Time)
    requires AllCoupled(incidents) && AllOrdered(incidents) && !step.Attach?
    ensures AllOrdered(EditRows(incidents, ids, step, now))
  {
    if ids != [] {
      var front, id := ids[..|ids| - 1], ids[|ids| - 1];
      EditRowsKeepOrdered(incidents, front, step, now);
      EditRowsKeeps(incidents, front, step, now);
      var mid := EditRows(incidents, front, step, now);
      if id < |mid| { StepKeepsOrdered(mid[id].clock, step, now); }
    }
  }

  lemma CommitKeepsOrdered(env: Env, db: Db, batch: seq<Handled>)
    requires TablesOk(db) && AcceptedTenants(db.tenants) && AllOrdered(db.incidents)
    ensures AcceptedTenants(Committed(env, db, batch).tenants) && AllOrdered(Committed(env, db, batch).incidents)
  {
    InsertedIsOk(env, db, batch);
    CommitKeepsTables(env, db, batch);
    GroupAllKeepsOrdered(env, Inserted(env, db, batch), Landed(env, db, batch));
  }

  lemma EventKeepsOrdered(env: Env, s: Sys, e: Event)
    requires TablesOk(s.db) && AcceptedTenants(s.db.tenants) && AllOrdered(s.db.incidents) && ConfiguresAccepted(e)
    ensures AcceptedTenants(Next(env, s, e).db.tenants) && AllOrdered(Next(env, s, e).db.incidents)
  {
    hide Committed, Batch, EditRows, AllOrdered;
    if Enabled(s, e) {
      if e.Commit? {
        CommitKeepsOrdered(env, s.db, Batch(s.stream, s.held[e.writer].ids, e.readings));
      } else if e.Request? {
        EditRowsKeepOrdered(s.db.incidents, IdsOf(e.request), StepOf(s.db, e.request), e.at);
      }
    }
  }

  /** Over every run whose configured policies are accepted ones, no incident's response is
      due after its resolution. */
  lemma {:induction false} ResponseIsDueFirst(env: Env, s: Sys, events: seq<Event>)
    requires TablesOk(s.db) && DeliveryOk(env, s) && AcceptedTenants(s.db.tenants) && AllOrdered(s.db.incidents)
    requires forall i | 0 <= i < |events| :: ConfiguresAccepted(events[i])
    ensures AcceptedTenants(RunAll(env, s, events).db.tenants) && AllOrdered(RunAll(env, s, events).db.incidents)
  {
    if events != [] {
      ResponseIsDueFirst(env, s, events[..|events| - 1]);
      NothingIsLost(env, s, events[..|events| - 1]);
      EventKeepsOrdered(env, RunAll(env, s, events[..|events| - 1]), events[|events| - 1]);
    }
  }

  // ---- escalation only tightens -----------------------------------------------

  // The clock of some run whose deadlines come from this policy.
  ghost predicate ClockFrom(c: Clock, policy: seq<SlaRow>) {
    exists t: Tracked :: FromPolicy(t, policy) && t.clock == c
  }

  lemma FreshIsFrom(at: Time, level: int, policy: seq<SlaRow>)
    ensures ClockFrom(FreshClock(at, level, policy), policy)
  {
    StartIsFromPolicy(at, level, policy, at);
    assert Start(at, level, policy, at).clock == FreshClock(at, level, policy);
  }

  // While unanswered: still under the policy, and its response due no later than it was.
  ghost predicate Tight(before: Clock, c: Clock, policy: seq<SlaRow>) {
    && Coupled(c)
    && (c.firstResponseAt.None? ==> ClockFrom(c, policy) && NoLater(before, c))
  }

  lemma StepKeepsTight(before: Clock, c: Clock, step: Step, now: Time, policy: seq<SlaRow>)
    requires Accepted(policy) && Tight(before, c, policy) && NeverLowers(c, step, policy)
    ensures Tight(before, ApplyStep(c, step, now), policy)
  {
    var d := ApplyStep(c, step, now);
    StepKeepsCoupling(c, step, now);
    if d.firstResponseAt.None? {
      var t: Tracked :| FromPolicy(t, policy) && t.clock == c;
      TighteningStep(t, step, now, policy);
      assert Advance(t, step, now).clock == d;
    }
  }

  // Incident `i` as it stands, of the same tenant and tight.
  ghost predicate TightAt(before: IncidentRow, rows: seq<IncidentRow>, i: nat, policy: seq<SlaRow>) {
    i < |rows| && rows[i].tenant == before.tenant && Tight(before.clock, rows[i].clock, policy)
  }

  ghost predicate HasPolicy(db: Db, tenant: TenantId, policy: seq<SlaRow>) {
    tenant in db.tenants ==> db.tenants[tenant].policy == policy
  }

  lemma PlaceKeepsTight(before: IncidentRow, db: Db, a: Alert, config: TenantConfig, at: Time, size: Sizer, i: nat,
      policy: seq<SlaRow>)
    requires Accepted(policy) && TightAt(before, db.incidents, i, policy)
    requires a.tenant == before.tenant ==> config.policy == policy
    ensures TightAt(before, Place(db.incidents, db.counters, a, config, at, size).incidents, i, policy)
  {
    var open := FindOpen(db.incidents, a.tenant, a.fingerprint);
    if open == Some(i) {
      var step := Step.Attach(a.timestamp, a.ruleLevel, config.policy);
      StepKeepsTight(before.clock, db.incidents[i].clock, step, 0, policy);
    }
  }

  lemma {:induction false} GroupAllKeepsTight(env: Env, before: IncidentRow, db: Db, rows: seq<Row>, i: nat,
      policy: seq<SlaRow>)
    requires Accepted(policy) && TightAt(before, db.incidents, i, policy) && HasPolicy(db, before.tenant, policy)
    ensures TightAt(before, GroupAll(env, db, rows).incidents, i, policy)
  {
    if rows != [] {
      var front, last := rows[..|rows| - 1], rows[|rows| - 1];
      GroupAllKeepsTight(env, before, db, front, i, policy);
      GroupAllKeepsKeys(env, db, front);
      var mid := GroupAll(env, db, front);
      if GroupsFor(mid, last.alert.tenant) {
        var config := mid.tenants[last.alert.tenant];
        PlaceKeepsTight(before, mid, last.alert, config, last.groupedAt, env.size, i, policy);
      }
    }
  }

  // A request that does not lower the severity of incident `i`.
  predicate NotLowered(rows: seq<IncidentRow>, r: Request, i: nat) {
    r.Update? && r.id == i && i < |rows| && r.severity.Some? ==> r.severity.value >= rows[i].clock.severity
  }

  lemma {:induction false} EditRowsKeepTight(before: IncidentRow, incidents: seq<IncidentRow>, ids: seq<nat>,
      step: Step, now: Time, i: nat, policy: seq<SlaRow>)
    requires Accepted(policy) && TightAt(before, incidents, i, policy)
    requires !step.Attach? && (step.Edit? ==> step.severity.None?)
    ensures TightAt(before, EditRows(incidents, ids, step, now), i, policy)
  {
    if ids != [] {
      var front, id := ids[..|ids| - 1], ids[|ids| - 1];
      EditRowsKeepTight(before, incidents, front, step, now, i, policy);
      var mid := EditRows(incidents, front, step, now);
      if id == i { StepKeepsTight(before.clock, mid[i].clock, step, now, policy); }
    }
  }

  lemma RequestKeepsTight(before: IncidentRow, db: Db, r: Request, now: Time, i: nat, policy: seq<SlaRow>)
    requires Accepted(policy) && TightAt(before, db.incidents, i, policy) && NotLowered(db.incidents, r, i)
    ensures TightAt(before, Served(db, r, now).incidents, i, policy)
  {
    var step := StepOf(db, r);
    if r.Update? {
      EditsOne(db.incidents, r.id, step, now);
      if r.id == i { StepKeepsTight(before.clock, db.incidents[i].clock, step, now, policy); }
    } else {
      EditRowsKeepTight(before, db.incidents, IdsOf(r), step, now, i, policy);
    }
  }

  // The tenant keeps its policy, and nobody lowers the severity of incident `i`.
  predicate Leaves(s: Sys, e: Event, i: nat, tenant: TenantId, policy: seq<SlaRow>) {
    match e
    case Request(r, _) => NotLowered(s.db.incidents, r, i)
    case Configure(t, config) => t == tenant ==> config.policy == policy
    case _ => true
  }

  ghost predicate LeavesOver(env: Env, s: Sys, events: seq<Event>, i: nat, tenant: TenantId, policy: seq<SlaRow>) {
    events == [] ||
    (LeavesOver(env, s, events[..|events| - 1], i, tenant, policy)
     && Leaves(RunAll(env, s, events[..|events| - 1]), events[|events| - 1], i, tenant, policy))
  }

  lemma EventKeepsTight(env: Env, before: IncidentRow, s: Sys, e: Event, i: nat, policy: seq<SlaRow>)
    requires Accepted(policy) && TightAt(before, s.db.incidents, i, policy) && HasPolicy(s.db, before.tenant, policy)
    requires Leaves(s, e, i, before.tenant, policy)
    ensures TightAt(before, Next(env, s, e).db.incidents, i, policy)
    ensures HasPolicy(Next(env, s, e).db, before.tenant, policy)
  {
    if Enabled(s, e) {
      if e.Commit? {
        var batch := Batch(s.stream, s.held[e.writer].ids, e.readings);
        GroupAllKeepsKeys(env, Inserted(env, s.db, batch), Landed(env, s.db, batch));
        GroupAllKeepsTight(env, before, Inserted(env, s.db, batch), Landed(env, s.db, batch), i, policy);
      } else if e.Request? {
        RequestKeepsTight(before, s.db, e.request, e.at, i, policy);
      }
    }
  }

  /** In the running system, under one accepted policy and while nobody lowers its severity
      by hand, an incident that is still unanswered has its response due no later than it
      ever was, whatever alerts land in whatever order and batches. */
  lemma {:induction false} DeadlineOnlyTightens(env: Env, s: Sys, events: seq<Event>, i: nat, policy: seq<SlaRow>)
    requires i < |s.db.incidents| && Coupled(s.db.incidents[i].clock) && ClockFrom(s.db.incidents[i].clock, policy)
    requires Accepted(policy) && HasPolicy(s.db, s.db.incidents[i].tenant, policy)
    requires LeavesOver(env, s, events, i, s.db.incidents[i].tenant, policy)
    ensures TightAt(s.db.incidents[i], RunAll(env, s, events).db.incidents, i, policy)
    ensures HasPolicy(RunAll(env, s, events).db, s.db.incidents[i].tenant, policy)
  {
    if events != [] {
      DeadlineOnlyTightens(env, s, events[..|events| - 1], i, policy);
      var mid := RunAll(env, s, events[..|events| - 1]);
      EventKeepsTight(env, s.db.incidents[i], mid, events[|events| - 1], i, policy);
    }
  }
}
