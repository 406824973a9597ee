/** What an incident has become is a matter of which alerts are linked to it, not of the
    order, the batches or the redeliveries they came in. */
module OrderFree {
  import opened Wrappers
  import opened Model
  import opened Sla
  import opened SlaRuns
  import opened Tables
  import opened Grouping
  import opened IngestConsumer
  import opened TableLaws
  import opened ExactlyOnce
  import opened IncidentsApi
  import opened Delivery

  // ---- severity ---------------------------------------------------------------

  // The highest level among some stored alerts.
  ghost predicate HighestOf(severity: int, alerts: map<AlertKey, Stored>, keys: set<AlertKey>) {
    && (forall k | k in keys && k in alerts :: alerts[k].alert.ruleLevel <= severity)
    && (exists k :: k in keys && k in alerts && alerts[k].alert.ruleLevel == severity)
  }

  ghost predicate SeverityExact(db: Db) {
    forall i: nat | i < |db.incidents| ::
      HighestOf(db.incidents[i].clock.severity, db.alerts, LinkedKeys(db.alerts, i))
  }

  lemma OneMoreLevel(severity: int, alerts: map<AlertKey, Stored>, keys: set<AlertKey>, key: AlertKey, id: nat)
    requires key in alerts && HighestOf(severity, alerts, keys)
    ensures HighestOf(Max(severity, alerts[key].alert.ruleLevel), Relinked(alerts, key, id), keys + {key})
  {
    var top :| top in keys && top in alerts && alerts[top].alert.ruleLevel == severity;
    assert top in keys + {key} && key in keys + {key};
  }

  lemma SameLevels(severity: int, alerts: map<AlertKey, Stored>, keys: set<AlertKey>, key: AlertKey, id: nat)
    requires key in alerts && HighestOf(severity, alerts, keys)
    ensures HighestOf(severity, Relinked(alerts, key, id), keys)
  {
    var top :| top in keys && top in alerts && alerts[top].alert.ruleLevel == severity;
    assert top in keys && top in Relinked(alerts, key, id);
  }

  lemma PlaceRaises(db: Db, a: Alert, config: TenantConfig, now: Time, size: Sizer, i: nat)
    requires UniqueOpen(db.incidents)
    requires i < |Place(db.incidents, db.counters, a, config, now, size).incidents|
    ensures var p := Place(db.incidents, db.counters, a, config, now, size);
      && (i >= |db.incidents| ==> i == p.id)
      && p.incidents[i].clock.severity ==
        if i >= |db.incidents| then a.ruleLevel
        else if i == p.id then Max(db.incidents[i].clock.severity, a.ruleLevel)
        else db.incidents[i].clock.severity
  {
  }

  lemma GroupOneKeepsSeverity(env: Env, db: Db, row: Row)
    requires TablesOk(db) && Ready(db.alerts, row) && GroupsFor(db, row.alert.tenant) && SeverityExact(db)
    ensures SeverityExact(GroupOne(env, db, row))
  {
    forall i: nat | i < |GroupOne(env, db, row).incidents|
      ensures HighestOf(GroupOne(env, db, row).incidents[i].clock.severity, GroupOne(env, db, row).alerts,
                        LinkedKeys(GroupOne(env, db, row).alerts, i))
    {
      SeverityAfter(env, db, row, i);
    }
  }

  lemma SeverityAfter(env: Env, db: Db, row: Row, i: nat)
    requires TablesOk(db) && Ready(db.alerts, row) && GroupsFor(db, row.alert.tenant) && SeverityExact(db)
    requires i < |GroupOne(env, db, row).incidents|
    ensures var after := GroupOne(env, db, row);
      HighestOf(after.incidents[i].clock.severity, after.alerts, LinkedKeys(after.alerts, i))
  {
    hide Place;
    var after := GroupOne(env, db, row);
    var a, config, key := row.alert, db.tenants[row.alert.tenant], row.Key();
    var p := Place(db.incidents, db.counters, a, config, row.groupedAt, env.size);
    assert after.alerts == Relinked(db.alerts, key, p.id);
    PlaceRaises(db, a, config, row.groupedAt, env.size, i);
    RelinkLinked(db.alerts, key, p.id, i, 0);
    if i >= |db.incidents| {
      assert LinkedKeys(db.alerts, i) == {};
      assert key in LinkedKeys(after.alerts, i);
    } else if i == p.id {
      OneMoreLevel(db.incidents[i].clock.severity, db.alerts, LinkedKeys(db.alerts, i), key, p.id);
    } else {
      SameLevels(db.incidents[i].clock.severity, db.alerts, LinkedKeys(db.alerts, i), key, p.id);
    }
  }

  lemma {:induction false} GroupAllKeepsSeverity(env: Env, db: Db, rows: seq<Row>)
    requires TablesOk(db) && GroupsEachOnce(db, rows)
    requires forall r | r in rows :: r.Key() in db.alerts && (GroupsFor(db, r.alert.tenant) ==> Ready(db.alerts, r))
    requires SeverityExact(db)
    ensures SeverityExact(GroupAll(env, db, rows))
  {
    if rows != [] {
      var front, last := rows[..|rows| - 1], rows[|rows| - 1];
      FrontGroupsEachOnce(db, rows);
      GroupAllKeepsSeverity(env, db, front);
      GroupAllKeepsTables(env, db, front);
      if GroupsFor(db, last.alert.tenant) {
        GroupAllKeepsReady(env, db, front, last);
        GroupOneKeepsSeverity(env, GroupAll(env, db, front), last);
      }
    }
  }

  lemma CommitKeepsSeverity(env: Env, db: Db, batch: seq<Handled>)
    requires TablesOk(db) && CleanBatch(env, db, batch) && SeverityExact(db)
    ensures SeverityExact(Committed(env, db, batch))
  {
    var inserted := Inserted(env, db, batch);
    InsertedIsOk(env, db, batch);
    FreshLand(db.alerts, RowsOf(env, batch));
    forall i: nat | i < |inserted.incidents|
      ensures HighestOf(inserted.incidents[i].clock.severity, inserted.alerts, LinkedKeys(inserted.alerts, i))
    {
      assert LinkedKeys(inserted.alerts, i) == LinkedKeys(db.alerts, i);
      var severity := db.incidents[i].clock.severity;
      var top :| top in LinkedKeys(db.alerts, i) && top in db.alerts && db.alerts[top].alert.ruleLevel == severity;
      assert top in inserted.alerts;
    }
    LandedAreReady(env, db, batch);
    LandedOnceEach(env, db, batch);
    GroupAllKeepsSeverity(env, inserted, Landed(env, db, batch));
  }

  // Requests that leave the severity alone.
  predicate SetsNoSeverity(e: Event) { e.Request? && e.request.Update? ==> e.request.severity.None? }

  lemma {:induction false} EditRowsKeepSeverity(incidents: seq<IncidentRow>, ids: seq<nat>, step: Step, now: Time)
    requires AllCoupled(incidents) && !step.Attach? && (step.Edit? ==> step.severity.None?)
    ensures var after := EditRows(incidents, ids, step, now);
      && |after| == |incidents|
      && forall i | 0 <= i < |after| :: after[i].clock.severity == incidents[i].clock.severity
  {
    if ids != [] {
      var front, id := ids[..|ids| - 1], ids[|ids| - 1];
      EditRowsKeepSeverity(incidents, front, step, now);
      EditRowsKeeps(incidents, front, step, now);
      var mid := EditRows(incidents, front, step, now);
      if id < |mid| && step.Edit? { EditTable(mid[id].clock, step, now); }
    }
  }

  lemma StepKeepsSeverity(env: Env, s: Sys, e: Event)
    requires TablesOk(s.db) && SeverityExact(s.db) && CleanStep(env, s, e) && SetsNoSeverity(e)
    ensures SeverityExact(Next(env, s, e).db)
  {
    if Enabled(s, e) {
      if e.Commit? {
        CommitKeepsSeverity(env, s.db, Batch(s.stream, s.held[e.writer].ids, e.readings));
      } else if e.Request? {
        EditRowsKeepSeverity(s.db.incidents, IdsOf(e.request), StepOf(s.db, e.request), e.at);
      }
    }
  }

  /** Over every clean run in which nobody sets a severity by hand, an incident's severity
      is the highest level among the alerts linked to it. */
  lemma {:induction false} SeverityIsHighest(env: Env, s: Sys, events: seq<Event>)
    requires TablesOk(s.db) && DeliveryOk(env, s) && SeverityExact(s.db) && CleanRun(env, s, events)
    requires forall i | 0 <= i < |events| :: SetsNoSeverity(events[i])
    ensures SeverityExact(RunAll(env, s, events).db)
  {
    if events != [] {
      var front := events[..|events| - 1];
      SeverityIsHighest(env, s, front);
      NothingIsLost(env, s, front);
      StepKeepsSeverity(env, RunAll(env, s, front), events[|events| - 1]);
    }
  }

  // ---- the same alerts make the same case -------------------------------------

  // The same alerts are linked to one incident here and to one there.
  ghost predicate SameLinked(db: Db, i: nat, db': Db, i': nat) {
    && i < |db.incidents| && i' < |db'.incidents|
    && LinkedKeys(db.alerts, i) == LinkedKeys(db'.alerts, i')
    && forall k | k in LinkedKeys(db.alerts, i) && k in db.alerts && k in db'.alerts ::
         db.alerts[k].alert == db'.alerts[k].alert
  }

  lemma SeenByIsUnique(a: Time, b: Time, c: Time, d: Time, keys: set<AlertKey>)
    requires SeenBy(a, b, keys) && SeenBy(c, d, keys)
    ensures a == c && b == d
  {
    var k1 :| k1 in keys && k1.timestamp == a;
    var k2 :| k2 in keys && k2.timestamp == b;
    var k3 :| k3 in keys && k3.timestamp == c;
    var k4 :| k4 in keys && k4.timestamp == d;
  }

  lemma HighestIsUnique(a: int, b: int, alerts: map<AlertKey, Stored>, alerts': map<AlertKey, Stored>,
      keys: set<AlertKey>)
    requires HighestOf(a, alerts, keys) && HighestOf(b, alerts', keys)
    requires forall k | k in keys && k in alerts && k in alerts' :: alerts[k].alert == alerts'[k].alert
    requires forall k | k in keys :: k in alerts && k in alerts'
    ensures a == b
  {
    var k :| k in keys && k in alerts && alerts[k].alert.ruleLevel == a;
    var k' :| k' in keys && k' in alerts' && alerts'[k'].alert.ruleLevel == b;
  }

  /** Two incidents at the end of two clean runs, of any length, batching, redelivery and
      order, that the same alerts are linked to, agree on count, first and last seen and
      every per-rule count, and, if nobody set a severity by hand, on severity. */
  lemma SameAlertsMakeTheSameCase(env: Env, s: Sys, events: seq<Event>, i: nat, s': Sys, events': seq<Event>, i': nat,
      rule: int)
    requires TablesOk(s.db) && DeliveryOk(env, s) && Exact(s.db) && CleanRun(env, s, events)
    requires TablesOk(s'.db) && DeliveryOk(env, s') && Exact(s'.db) && CleanRun(env, s', events')
    requires SameLinked(RunAll(env, s, events).db, i, RunAll(env, s', events').db, i')
    ensures var r, r' := RunAll(env, s, events).db.incidents[i], RunAll(env, s', events').db.incidents[i'];
      && r.alertCount == r'.alertCount
      && r.clock.firstSeen == r'.clock.firstSeen
      && r.lastSeen == r'.lastSeen
      && CountOf(r.ruleSummary, Rule(rule)) == CountOf(r'.ruleSummary, Rule(rule))
      && (SeverityExact(RunAll(env, s, events).db) && SeverityExact(RunAll(env, s', events').db) ==>
            r.clock.severity == r'.clock.severity)
  {
    ExactlyOnceIffClean(env, s, events);
    ExactlyOnceIffClean(env, s', events');
    SameLinkedAgree(RunAll(env, s, events).db, i, RunAll(env, s', events').db, i', rule);
  }

  lemma SameLinkedAgree(db: Db, i: nat, db': Db, i': nat, rule: int)
    requires Exact(db) && Exact(db') && SameLinked(db, i, db', i')
    ensures var r, r' := db.incidents[i], db'.incidents[i'];
      && r.alertCount == r'.alertCount
      && r.clock.firstSeen == r'.clock.firstSeen
      && r.lastSeen == r'.lastSeen
      && CountOf(r.ruleSummary, Rule(rule)) == CountOf(r'.ruleSummary, Rule(rule))
      && (SeverityExact(db) && SeverityExact(db') ==> r.clock.severity == r'.clock.severity)
  {
    var r, r', keys := db.incidents[i], db'.incidents[i'], LinkedKeys(db.alerts, i);
    SeenByIsUnique(r.clock.firstSeen, r.lastSeen, r'.clock.firstSeen, r'.lastSeen, keys);
    assert |RuleKeys(db.alerts, i, rule)| == |RuleKeys(db'.alerts, i', rule)| by {
      forall k ensures k in RuleKeys(db.alerts, i, rule) <==> k in RuleKeys(db'.alerts, i', rule) {
        assert k in keys <==> k in LinkedKeys(db'.alerts, i');
      }
      assert RuleKeys(db.alerts, i, rule) == RuleKeys(db'.alerts, i', rule);
    }
    if SeverityExact(db) && SeverityExact(db') {
      forall k | k in keys ensures k in db.alerts && k in db'.alerts {
        assert k in LinkedKeys(db'.alerts, i');
      }
      HighestIsUnique(r.clock.severity, r'.clock.severity, db.alerts, db'.alerts, keys);
    }
  }
}
