/** In every reachable database the per-rule counts of an incident sum to its count, under
    whatever settings its alerts were grouped. */
module Summaries {
  import opened Model
  import opened Tables
  import opened Grouping
  import opened IngestConsumer
  import opened ExactlyOnce
  import opened Joining
  import opened IncidentsApi
  import opened Delivery

  // The summary's entries add up to the alerts and the late arrivals, of which the first
  // alert is none.
  ghost predicate AddsUp(row: IncidentRow) {
    && Total(row.ruleSummary) == row.alertCount + CountOf(row.ruleSummary, Late)
    && 0 <= CountOf(row.ruleSummary, Late) <= row.alertCount - 1
  }

  ghost predicate AllAddUp(rows: seq<IncidentRow>) { forall i | 0 <= i < |rows| :: AddsUp(rows[i]) }

  lemma AttachAddsUp(row: IncidentRow, a: Alert, config: TenantConfig, size: Sizer)
    requires AddsUp(row)
    ensures AddsUp(JoinOne(row, a, config, size))
  {
    var late := IsLate(row, a, config.windowMinutes);
    BumpAddsOne(row.ruleSummary, Late);
    BumpAddsOne(if late then Bump(row.ruleSummary, Late) else row.ruleSummary, Rule(a.ruleId));
    AttachIs(row, a, config.policy, late, size);
  }

  lemma PlaceAddsUp(incidents: seq<IncidentRow>, counters: map<TenantId, int>, a: Alert, config: TenantConfig,
      at: Time, size: Sizer)
    requires AllAddUp(incidents)
    ensures AllAddUp(Place(incidents, counters, a, config, at, size).incidents)
  {
    var open := FindOpen(incidents, a.tenant, a.fingerprint);
    if open.Some? {
      AttachAddsUp(incidents[open.value], a, config, size);
    } else {
      var summary: map<SummaryKey, int> := map[];
      BumpAddsOne(summary, Rule(a.ruleId));
      assert Bump(summary, Rule(a.ruleId)) == map[Rule(a.ruleId) := 1];
    }
  }

  lemma {:induction false} GroupAllAddsUp(env: Env, db: Db, rows: seq<Row>)
    requires AllAddUp(db.incidents)
    ensures AllAddUp(GroupAll(env, db, rows).incidents)
  {
    if rows != [] {
      var front, last := rows[..|rows| - 1], rows[|rows| - 1];
      GroupAllAddsUp(env, db, front);
      var mid := GroupAll(env, db, front);
      if GroupsFor(mid, last.alert.tenant) {
        var config := mid.tenants[last.alert.tenant];
        PlaceAddsUp(mid.incidents, mid.counters, last.alert, config, last.groupedAt, env.size);
      }
    }
  }

  lemma CommitAddsUp(env: Env, db: Db, batch: seq<Handled>)
    requires AllAddUp(db.incidents)
    ensures AllAddUp(Committed(env, db, batch).incidents)
  {
    GroupAllAddsUp(env, Inserted(env, db, batch), Landed(env, db, batch));
  }

  lemma ClocksAddUp(before: seq<IncidentRow>, after: seq<IncidentRow>)
    requires OnlyClocksDiffer(before, after) && AllAddUp(before)
    ensures AllAddUp(after)
  {
    forall i | 0 <= i < |after| ensures AddsUp(after[i]) {
      assert AddsUp(before[i]) && after[i] == before[i].(clock := after[i].clock);
    }
  }

  lemma StepAddsUp(env: Env, s: Sys, e: Event)
    requires TablesOk(s.db) && AllAddUp(s.db.incidents)
    ensures AllAddUp(Next(env, s, e).db.incidents)
  {
    hide TablesOk, Committed, Served, Batch, AddsUp;
    if Enabled(s, e) {
      if e.Commit? {
        CommitAddsUp(env, s.db, Batch(s.stream, s.held[e.writer].ids, e.readings));
      } else if e.Request? {
        RequestKeepsTables(s.db, e.request, e.at);
        ClocksAddUp(s.db.incidents, Served(s.db, e.request, e.at).incidents);
      }
    }
  }

  lemma {:induction false} RunAddsUp(env: Env, s: Sys, events: seq<Event>)
    requires TablesOk(s.db) && DeliveryOk(env, s) && AllAddUp(s.db.incidents)
    ensures AllAddUp(RunAll(env, s, events).db.incidents)
  {
    if events != [] {
      RunAddsUp(env, s, events[..|events| - 1]);
      NothingIsLost(env, s, events[..|events| - 1]);
      StepAddsUp(env, RunAll(env, s, events[..|events| - 1]), events[|events| - 1]);
    }
  }

  // Without the late tally, the summary is the alerts by rule.
  ghost predicate SumsByRule(row: IncidentRow) {
    && Total(row.ruleSummary - {Late}) == row.alertCount
    && 0 <= CountOf(row.ruleSummary, Late) <= row.alertCount - 1
  }

  lemma AddedUpByRule(row: IncidentRow)
    requires AddsUp(row)
    ensures SumsByRule(row)
  {
    if Late in row.ruleSummary {
      TotalSplits(row.ruleSummary, Late);
    } else {
      assert row.ruleSummary - {Late} == row.ruleSummary;
    }
  }

  /** From an empty system, over every run, clean or not, under whatever settings: each
      incident's per-rule counts sum to its count, and its late arrivals are at most one
      fewer than its alerts. */
  lemma EveryIncidentAddsUp(env: Env, tenants: map<TenantId, TenantConfig>, now: Time, events: seq<Event>)
    ensures var rows := RunAll(env, Initial(tenants, now), events).db.incidents;
      forall i | 0 <= i < |rows| :: SumsByRule(rows[i])
  {
    InitialIsOk(env, tenants, now);
    RunAddsUp(env, Initial(tenants, now), events);
    var rows := RunAll(env, Initial(tenants, now), events).db.incidents;
    forall i | 0 <= i < |rows| ensures SumsByRule(rows[i]) {
      AddedUpByRule(rows[i]);
    }
  }
}
