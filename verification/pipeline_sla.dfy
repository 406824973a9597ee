/** The incident promises, lifted to whole runs of the pipeline: a closed case is frozen but
    for its clock, and a breach of an answered case stays one. */
module PipelineSla {
  import opened Model
  import opened Sla
  import opened SlaRuns
  import opened Tables
  import opened Grouping
  import opened IngestConsumer
  import opened TableLaws
  import opened ExactlyOnce
  import opened IncidentsApi
  import opened Delivery

  // ---- closed cases are frozen ------------------------------------------------

  lemma {:induction false} GroupAllKeepsClosed(env: Env, db: Db, rows: seq<Row>, i: nat)
    requires TablesOk(db) && forall r | r in rows :: r.Key() in db.alerts
    requires i < |db.incidents| && IsClosed(db.incidents[i].clock.status)
    ensures i < |GroupAll(env, db, rows).incidents| && GroupAll(env, db, rows).incidents[i] == db.incidents[i]
  {
    if rows != [] {
      var front, last := rows[..|rows| - 1], rows[|rows| - 1];
      GroupAllKeepsClosed(env, db, front, i);
      GroupAllKeepsTables(env, db, front);
      var mid := GroupAll(env, db, front);
      if GroupsFor(mid, last.alert.tenant) {
        PlaceKeepsUniqueOpen(mid.incidents, mid.counters, last.alert, mid.tenants[last.alert.tenant],
                             last.groupedAt, env.size);
      }
    }
  }

  lemma CommitKeepsClosed(env: Env, db: Db, batch: seq<Handled>, i: nat)
    requires TablesOk(db) && i < |db.incidents| && IsClosed(db.incidents[i].clock.status)
    ensures i < |Committed(env, db, batch).incidents| && Committed(env, db, batch).incidents[i] == db.incidents[i]
  {
    InsertedIsOk(env, db, batch);
    GroupAllKeepsClosed(env, Inserted(env, db, batch), Landed(env, db, batch), i);
  }

  // As far as a step goes: nothing but the clock of a closed case changes.
  lemma StepKeepsClosed(env: Env, s: Sys, e: Event, i: nat)
    requires TablesOk(s.db) && i < |s.db.incidents| && IsClosed(s.db.incidents[i].clock.status)
    ensures var after := Next(env, s, e).db.incidents;
      i < |after| && after[i] == s.db.incidents[i].(clock := after[i].clock)
  {
    hide TablesOk, Served, Committed, Batch;
    if Enabled(s, e) {
      if e.Commit? {
        CommitKeepsClosed(env, s.db, Batch(s.stream, s.held[e.writer].ids, e.readings), i);
      } else if e.Request? {
        RequestKeepsTables(s.db, e.request, e.at);
      }
    }
  }

  // Closed in every state of the run but perhaps the last.
  ghost predicate StaysClosed(env: Env, s: Sys, events: seq<Event>, i: nat) {
    events == [] ||
    var front := events[..|events| - 1];
    var mid := RunAll(env, s, front);
    && StaysClosed(env, s, front, i)
    && i < |mid.db.incidents|
    && IsClosed(mid.db.incidents[i].clock.status)
  }

  /** While a case is closed nothing but a request touches it, and then only its clock:
      its counts, rule summary, evidence and times are those it was closed with. */
  lemma {:induction false} ClosedCaseIsFrozen(env: Env, s: Sys, events: seq<Event>, i: nat)
    requires TablesOk(s.db) && DeliveryOk(env, s)
    requires i < |s.db.incidents| && StaysClosed(env, s, events, i)
    ensures var t := RunAll(env, s, events);
      i < |t.db.incidents| && t.db.incidents[i] == s.db.incidents[i].(clock := t.db.incidents[i].clock)
  {
    if events != [] {
      var front, e := events[..|events| - 1], events[|events| - 1];
      ClosedCaseIsFrozen(env, s, front, i);
      NothingIsLost(env, s, front);
      StepKeepsClosed(env, RunAll(env, s, front), e, i);
    }
  }

  // ---- a resolution breach is permanent ---------------------------------------

  ghost predicate RowsStampedBy(rows: seq<IncidentRow>, now: Time) {
    forall i | 0 <= i < |rows| :: StampedBy(rows[i].clock, now)
  }

  // Answered, and past its resolution target at this instant.
  ghost predicate AnsweredInBreach(rows: seq<IncidentRow>, i: nat, seen: Time) {
    i < |rows| && rows[i].clock.firstResponseAt.Some? && ResolutionBreached(rows[i].clock, seen)
  }

  lemma PlaceKeepsBreach(incidents: seq<IncidentRow>, counters: map<TenantId, int>, a: Alert,
                         config: TenantConfig, now: Time, size: Sizer, i: nat, seen: Time)
    requires AllCoupled(incidents) && RowsStampedBy(incidents, seen)
    ensures var p := Place(incidents, counters, a, config, now, size);
      && RowsStampedBy(p.incidents, seen)
      && (AnsweredInBreach(incidents, i, seen) ==> AnsweredInBreach(p.incidents, i, seen))
  {
    var open := FindOpen(incidents, a.tenant, a.fingerprint);
    if open.Some? {
      var step := Step.Attach(a.timestamp, a.ruleLevel, config.policy);
      StepKeepsStamps(incidents[open.value].clock, step, seen);
      if open.value == i && AnsweredInBreach(incidents, i, seen) {
        BreachLapsesExactly(incidents[i].clock, seen, step, seen, seen);
      }
    }
  }

  lemma {:induction false} GroupAllKeepsBreach(env: Env, db: Db, rows: seq<Row>, i: nat, seen: Time)
    requires TablesOk(db) && RowsStampedBy(db.incidents, seen) && forall r | r in rows :: r.Key() in db.alerts
    ensures RowsStampedBy(GroupAll(env, db, rows).incidents, seen)
    ensures AnsweredInBreach(db.incidents, i, seen) ==> AnsweredInBreach(GroupAll(env, db, rows).incidents, i, seen)
  {
    if rows != [] {
      var front, last := rows[..|rows| - 1], rows[|rows| - 1];
      GroupAllKeepsBreach(env, db, front, i, seen);
      GroupAllKeepsTables(env, db, front);
      var mid := GroupAll(env, db, front);
      if GroupsFor(mid, last.alert.tenant) {
        PlaceKeepsBreach(mid.incidents, mid.counters, last.alert, mid.tenants[last.alert.tenant],
                         last.groupedAt, env.size, i, seen);
      }
    }
  }

  lemma CommitKeepsBreach(env: Env, db: Db, batch: seq<Handled>, i: nat, seen: Time)
    requires TablesOk(db) && RowsStampedBy(db.incidents, seen)
    ensures RowsStampedBy(Committed(env, db, batch).incidents, seen)
    ensures AnsweredInBreach(db.incidents, i, seen) ==> AnsweredInBreach(Committed(env, db, batch).incidents, i, seen)
  {
    InsertedIsOk(env, db, batch);
    GroupAllKeepsBreach(env, Inserted(env, db, batch), Landed(env, db, batch), i, seen);
  }

  lemma {:induction false} EditRowsKeepsBreach(incidents: seq<IncidentRow>, ids: seq<nat>, step: Step, seen: Time,
      now: Time, i: nat)
    requires AllCoupled(incidents) && RowsStampedBy(incidents, seen) && seen <= now && !step.Attach?
    ensures RowsStampedBy(EditRows(incidents, ids, step, now), now)
    ensures AnsweredInBreach(incidents, i, seen) ==> AnsweredInBreach(EditRows(incidents, ids, step, now), i, now)
  {
    if ids == [] {
      BreachOnlyAges(incidents, i, seen, now);
    } else {
      var front, id := ids[..|ids| - 1], ids[|ids| - 1];
      EditRowsKeepsBreach(incidents, front, step, seen, now, i);
      EditRowsKeeps(incidents, front, step, now);
      var mid := EditRows(incidents, front, step, now);
      if id < |mid| {
        StepKeepsStamps(mid[id].clock, step, now);
        StepKeepsCoupling(mid[id].clock, step, now);
        if id == i && AnsweredInBreach(mid, i, now) {
          BreachLapsesExactly(mid[i].clock, now, step, now, now);
        }
      }
    }
  }

  // Time passing alone never clears a breach.
  lemma BreachOnlyAges(incidents: seq<IncidentRow>, i: nat, seen: Time, later: Time)
    requires seen <= later
    ensures AnsweredInBreach(incidents, i, seen) ==> AnsweredInBreach(incidents, i, later)
    ensures RowsStampedBy(incidents, seen) ==> RowsStampedBy(incidents, later)
  {
  }

  lemma StepKeepsBreach(env: Env, s: Sys, e: Event, i: nat)
    requires TablesOk(s.db) && RowsStampedBy(s.db.incidents, s.now)
    ensures var t := Next(env, s, e);
      && s.now <= t.now
      && RowsStampedBy(t.db.incidents, t.now)
      && (AnsweredInBreach(s.db.incidents, i, s.now) ==> AnsweredInBreach(t.db.incidents, i, t.now))
  {
    hide Committed, Batch, EditRows;
    if Enabled(s, e) {
      if e.Commit? {
        CommitKeepsBreach(env, s.db, Batch(s.stream, s.held[e.writer].ids, e.readings), i, s.now);
      } else if e.Request? {
        EditRowsKeepsBreach(s.db.incidents, IdsOf(e.request), StepOf(s.db, e.request), s.now, e.at, i);
        BreachOnlyAges(s.db.incidents, i, s.now, e.at);
      }
    }
  }

  /** In the running system: once an answered case is in resolution breach, it is in
      breach at every later time, whatever alerts land, whatever is redelivered and
      whatever analysts do to it. */
  lemma {:induction false} SystemBreachIsPermanent(env: Env, s: Sys, events: seq<Event>, i: nat, later: Time)
    requires TablesOk(s.db) && DeliveryOk(env, s) && RowsStampedBy(s.db.incidents, s.now)
    requires AnsweredInBreach(s.db.incidents, i, s.now)
    requires RunAll(env, s, events).now <= later
    ensures AnsweredInBreach(RunAll(env, s, events).db.incidents, i, later)
    ensures RowsStampedBy(RunAll(env, s, events).db.incidents, RunAll(env, s, events).now)
  {
    if events != [] {
      var front := events[..|events| - 1];
      var mid := RunAll(env, s, front);
      SystemBreachIsPermanent(env, s, front, i, mid.now);
      NothingIsLost(env, s, front);
      StepKeepsBreach(env, mid, events[|events| - 1], i);
    }
    BreachOnlyAges(RunAll(env, s, events).db.incidents, i, RunAll(env, s, events).now, later);
  }
}
