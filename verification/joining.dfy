/** What a case becomes as alerts join it: it does not depend on the order they come in,
    but for its evidence. */
module Joining {
  import opened Wrappers
  import opened Evidence
  import opened Model
  import opened SlaPolicy
  import opened Tables
  import opened EntityStore
  import opened Grouping
  import opened IngestConsumer
  import opened TableLaws
  import opened ExactlyOnce
  import opened Batching

  // A case joined by one alert.
  function JoinOne(row: IncidentRow, a: Alert, config: TenantConfig, size: Sizer): IncidentRow {
    AttachRow(row, a, config.policy, IsLate(row, a, config.windowMinutes), size)
  }

  // The case opened by the first alert and joined by the rest, in order.
  function Joined(alerts: seq<Alert>, config: TenantConfig, number: int, related: Option<nat>, size: Sizer): IncidentRow
    requires alerts != []
  {
    var last := alerts[|alerts| - 1];
    if |alerts| == 1 then CreateRow(last, config.policy, number, related, size)
    else
      JoinOne(Joined(alerts[..|alerts| - 1], config, number, related, size), last, config, size)
  }

  // An existing case joined by alerts, in order.
  function JoinedOn(row: IncidentRow, alerts: seq<Alert>, config: TenantConfig, size: Sizer): IncidentRow {
    FoldLeft(Joiner(config, size), row, alerts)
  }

  function Joiner(config: TenantConfig, size: Sizer): (IncidentRow, Alert) -> IncidentRow {
    (row: IncidentRow, a: Alert) => JoinOne(row, a, config, size)
  }

  function AlertsOf(rows: seq<Row>): seq<Alert> {
    seq(|rows|, i requires 0 <= i < |rows| => rows[i].alert)
  }

  // The case an alert was placed in is the open one of its fingerprint.
  lemma PlacedIsOpen(db: Db, row: Row, tenant: TenantId, fingerprint: string, size: Sizer)
    requires TablesOk(db) && GroupsFor(db, tenant)
    requires row.alert.tenant == tenant && row.alert.fingerprint == fingerprint
    ensures var p := Place(db.incidents, db.counters, row.alert, db.tenants[tenant], row.groupedAt, size);
      FindOpen(p.incidents, tenant, fingerprint) == Some(p.id)
  {
    var p := Place(db.incidents, db.counters, row.alert, db.tenants[tenant], row.groupedAt, size);
    PlaceKeepsUniqueOpen(db.incidents, db.counters, row.alert, db.tenants[tenant], row.groupedAt, size);
    OpenIsUnique(p.incidents, tenant, fingerprint, p.id);
  }

  // The first row opens the case, and a later one joins it.
  lemma OpensOrJoins(env: Env, db: Db, row: Row, tenant: TenantId, fingerprint: string)
    requires TablesOk(db) && GroupsFor(db, tenant)
    requires row.alert.tenant == tenant && row.alert.fingerprint == fingerprint
    ensures var after, open := GroupOne(env, db, row), FindOpen(db.incidents, tenant, fingerprint);
      var config, i := db.tenants[tenant], if open.Some? then open.value else |db.incidents|;
      && FindOpen(after.incidents, tenant, fingerprint) == Some(i)
      && after.incidents[i] ==
           if open.Some?
           then AttachRow(db.incidents[i], row.alert, config.policy,
                          IsLate(db.incidents[i], row.alert, config.windowMinutes), env.size)
           else CreateRow(row.alert, config.policy, NextNumber(db.counters, tenant),
                          RecentResolved(db.incidents, tenant, fingerprint, row.groupedAt), env.size)
  {
    PlacedIsOpen(db, row, tenant, fingerprint, env.size);
  }

  // ---- the lookback is not disturbed ------------------------------------------

  // Nothing recently closed has changed, and nothing new is.
  ghost predicate SameRecent(before: seq<IncidentRow>, after: seq<IncidentRow>, tenant: TenantId, fingerprint: string,
      now: Time)
  {
    && |before| <= |after|
    && (forall i | 0 <= i < |before| :: before[i] == after[i] ||
          (!RecentlyClosed(before[i], tenant, fingerprint, now) && !RecentlyClosed(after[i], tenant, fingerprint, now)))
    && (forall i | |before| <= i < |after| :: !RecentlyClosed(after[i], tenant, fingerprint, now))
  }

  lemma {:induction false} RecentOfSameLength(before: seq<IncidentRow>, after: seq<IncidentRow>, tenant: TenantId,
      fingerprint: string, now: Time)
    requires |before| == |after| && SameRecent(before, after, tenant, fingerprint, now)
    ensures RecentResolved(after, tenant, fingerprint, now) == RecentResolved(before, tenant, fingerprint, now)
  {
    if after != [] {
      var n := |after| - 1;
      RecentOfSameLength(before[..n], after[..n], tenant, fingerprint, now);
    }
  }

  lemma {:induction false} RecentIsStable(before: seq<IncidentRow>, after: seq<IncidentRow>, tenant: TenantId,
      fingerprint: string, now: Time)
    requires SameRecent(before, after, tenant, fingerprint, now)
    ensures RecentResolved(after, tenant, fingerprint, now) == RecentResolved(before, tenant, fingerprint, now)
    decreases |after|
  {
    if |before| == |after| {
      RecentOfSameLength(before, after, tenant, fingerprint, now);
    } else {
      RecentIsStable(before, after[..|after| - 1], tenant, fingerprint, now);
      assert !RecentlyClosed(after[|after| - 1], tenant, fingerprint, now);
    }
  }

  // Placing an alert changes no closed case and makes none.
  lemma PlaceTouchesOpen(incidents: seq<IncidentRow>, counters: map<TenantId, int>, a: Alert, config: TenantConfig,
      at: Time, size: Sizer)
    ensures var rows := Place(incidents, counters, a, config, at, size).incidents;
      && |incidents| <= |rows|
      && (forall i | 0 <= i < |incidents| ::
            rows[i] == incidents[i] || (IsOpen(incidents[i].clock.status) && IsOpen(rows[i].clock.status)))
      && (forall i | |incidents| <= i < |rows| :: IsOpen(rows[i].clock.status))
  {
    var open := FindOpen(incidents, a.tenant, a.fingerprint);
    if open.Some? {
      var row := incidents[open.value];
      AttachKeepsIdentity(row, a, config.policy, IsLate(row, a, config.windowMinutes), size);
    }
  }

  lemma GroupOneKeepsRecent(env: Env, db: Db, row: Row, tenant: TenantId, fingerprint: string, now: Time)
    ensures SameRecent(db.incidents, GroupOne(env, db, row).incidents, tenant, fingerprint, now)
  {
    hide Place;
    if GroupsFor(db, row.alert.tenant) {
      PlaceTouchesOpen(db.incidents, db.counters, row.alert, db.tenants[row.alert.tenant], row.groupedAt, env.size);
    }
  }

  lemma {:induction false} GroupAllKeepsRecent(env: Env, db: Db, rows: seq<Row>, tenant: TenantId, fingerprint: string,
      now: Time)
    requires TablesOk(db) && forall r | r in rows :: r.Key() in db.alerts
    ensures RecentResolved(GroupAll(env, db, rows).incidents, tenant, fingerprint, now)
         == RecentResolved(db.incidents, tenant, fingerprint, now)
  {
    if rows != [] {
      var front := rows[..|rows| - 1];
      var mid := GroupAll(env, db, front);
      GroupAllKeepsRecent(env, db, front, tenant, fingerprint, now);
      GroupAllKeepsTables(env, db, front);
      GroupOneKeepsRecent(env, mid, rows[|rows| - 1], tenant, fingerprint, now);
      RecentIsStable(mid.incidents, GroupAll(env, db, rows).incidents, tenant, fingerprint, now);
    }
  }

  // ---- grouping is joining ----------------------------------------------------

  // The rows of one tenant and fingerprint, in their order.
  function Matching(rows: seq<Row>, tenant: TenantId, fingerprint: string): seq<Row> {
    if rows == [] then []
    else
      var before, last := Matching(rows[..|rows| - 1], tenant, fingerprint), rows[|rows| - 1];
      if IsFor(tenant, fingerprint)(last) then before + [last] else before
  }

  // How the open case of a fingerprint comes out of the one before and the rows that
  // joined: joined by them, or opened by the first and joined by the rest, or neither.
  ghost predicate CaseIs(before: Db, after: Db, joined: seq<Row>, tenant: TenantId, fingerprint: string, size: Sizer)
    requires GroupsFor(before, tenant)
  {
    var open, now := FindOpen(before.incidents, tenant, fingerprint), FindOpen(after.incidents, tenant, fingerprint);
    var config := before.tenants[tenant];
    if open.Some? then
      && now == open
      && after.incidents[now.value] == JoinedOn(before.incidents[open.value], AlertsOf(joined), config, size)
    else if joined == [] then now.None?
    else
      && now.Some?
      && after.incidents[now.value] ==
           Joined(AlertsOf(joined), config, after.incidents[now.value].number,
                  RecentResolved(before.incidents, tenant, fingerprint, joined[0].groupedAt), size)
  }

  lemma AlertsOfOneMore(rows: seq<Row>, row: Row)
    ensures AlertsOf(rows + [row]) == AlertsOf(rows) + [row.alert]
  {
  }

  lemma JoinedOnOneMore(alerts: seq<Alert>, a: Alert, config: TenantConfig, row: IncidentRow, size: Sizer)
    ensures JoinedOn(row, alerts + [a], config, size) == JoinOne(JoinedOn(row, alerts, config, size), a, config, size)
  {
    assert (alerts + [a])[..|alerts|] == alerts;
  }

  lemma JoinedOneMore(alerts: seq<Alert>, a: Alert, config: TenantConfig, number: int, related: Option<nat>,
      size: Sizer)
    ensures Joined(alerts + [a], config, number, related, size) ==
      if alerts == [] then CreateRow(a, config.policy, number, related, size)
      else JoinOne(Joined(alerts, config, number, related, size), a, config, size)
  {
    assert (alerts + [a])[..|alerts|] == alerts;
  }

  lemma JoinOneMore(env: Env, db: Db, mid: Db, row: Row, joined: seq<Row>, tenant: TenantId, fingerprint: string)
    requires TablesOk(mid) && GroupsFor(db, tenant) && mid.tenants == db.tenants && IsFor(tenant, fingerprint)(row)
    requires CaseIs(db, mid, joined, tenant, fingerprint, env.size)
    requires RecentResolved(mid.incidents, tenant, fingerprint, row.groupedAt)
          == RecentResolved(db.incidents, tenant, fingerprint, row.groupedAt)
    ensures CaseIs(db, GroupOne(env, mid, row), joined + [row], tenant, fingerprint, env.size)
  {
    var open, now := FindOpen(db.incidents, tenant, fingerprint), FindOpen(mid.incidents, tenant, fingerprint);
    var config := db.tenants[tenant];
    OpensOrJoins(env, mid, row, tenant, fingerprint);
    AlertsOfOneMore(joined, row);
    if open.Some? {
      JoinedOnOneMore(AlertsOf(joined), row.alert, config, db.incidents[open.value], env.size);
    } else if joined == [] {
      JoinedOneMore([], row.alert, config, NextNumber(mid.counters, tenant),
                    RecentResolved(db.incidents, tenant, fingerprint, row.groupedAt), env.size);
      assert [] + [row.alert] == [row.alert];
      assert AlertsOf([row]) == [row.alert];
    } else {
      JoinedOneMore(AlertsOf(joined), row.alert, config, mid.incidents[now.value].number,
                    RecentResolved(db.incidents, tenant, fingerprint, joined[0].groupedAt), env.size);
    }
  }

  /** Grouping any rows at all is joining: the open case of a fingerprint becomes the
      old one joined by exactly the rows of its tenant and fingerprint in their order,
      or, if none was open, the case that the first of them opens and the rest join. */
  lemma {:induction false} GroupAllJoins(env: Env, db: Db, rows: seq<Row>, tenant: TenantId, fingerprint: string)
    requires TablesOk(db) && GroupsFor(db, tenant) && forall r | r in rows :: r.Key() in db.alerts
    ensures CaseIs(db, GroupAll(env, db, rows), Matching(rows, tenant, fingerprint), tenant, fingerprint, env.size)
  {
    if rows != [] {
      var front, last := rows[..|rows| - 1], rows[|rows| - 1];
      GroupAllJoins(env, db, front, tenant, fingerprint);
      GroupAllKeepsTables(env, db, front);
      var mid := GroupAll(env, db, front);
      if IsFor(tenant, fingerprint)(last) {
        GroupAllKeepsRecent(env, db, front, tenant, fingerprint, last.groupedAt);
        JoinOneMore(env, db, mid, last, Matching(front, tenant, fingerprint), tenant, fingerprint);
      } else {
        LeavesOthers(env, mid, last, tenant, fingerprint);
      }
    }
  }

  // ---- over commits -----------------------------------------------------------

  lemma {:induction false} JoinedIsOpened(alerts: seq<Alert>, config: TenantConfig, number: int, related: Option<nat>,
      size: Sizer)
    requires alerts != []
    ensures Joined(alerts, config, number, related, size)
         == JoinedOn(CreateRow(alerts[0], config.policy, number, related, size), alerts[1..], config, size)
    decreases alerts
  {
    hide JoinOne, CreateRow;
    var front, rest := alerts[..|alerts| - 1], alerts[1..];
    if |alerts| > 1 {
      JoinedIsOpened(front, config, number, related, size);
      assert front[1..] == rest[..|rest| - 1];
    }
  }

  lemma JoinedAppends(a: seq<Alert>, b: seq<Alert>, config: TenantConfig, number: int, related: Option<nat>,
      size: Sizer)
    requires a != []
    ensures Joined(a + b, config, number, related, size)
         == JoinedOn(Joined(a, config, number, related, size), b, config, size)
  {
    hide JoinOne, CreateRow, FoldLeft, Joined;
    JoinedIsOpened(a + b, config, number, related, size);
    JoinedIsOpened(a, config, number, related, size);
    assert (a + b)[1..] == a[1..] + b;
    FoldLeftAppends(Joiner(config, size), CreateRow(a[0], config.policy, number, related, size), a[1..], b);
  }

  lemma {:induction false} JoinedOnKeeps(row: IncidentRow, alerts: seq<Alert>, config: TenantConfig, size: Sizer)
    ensures JoinedOn(row, alerts, config, size).number == row.number
  {
    if alerts != [] { JoinedOnKeeps(row, alerts[..|alerts| - 1], config, size); }
  }

  lemma CasesCompose(a: Db, b: Db, c: Db, p: seq<Row>, q: seq<Row>, tenant: TenantId, fingerprint: string, size: Sizer)
    requires GroupsFor(a, tenant) && b.tenants == a.tenants
    requires CaseIs(a, b, p, tenant, fingerprint, size) && CaseIs(b, c, q, tenant, fingerprint, size)
    requires q != [] ==>
      RecentResolved(b.incidents, tenant, fingerprint, q[0].groupedAt)
        == RecentResolved(a.incidents, tenant, fingerprint, q[0].groupedAt)
    ensures CaseIs(a, c, p + q, tenant, fingerprint, size)
  {
    var open := FindOpen(a.incidents, tenant, fingerprint);
    var config := a.tenants[tenant];
    assert AlertsOf(p + q) == AlertsOf(p) + AlertsOf(q);
    if open.Some? {
      FoldLeftAppends(Joiner(config, size), a.incidents[open.value], AlertsOf(p), AlertsOf(q));
    } else if p == [] {
      assert p + q == q;
    } else {
      var mid := FindOpen(b.incidents, tenant, fingerprint).value;
      var row, related := b.incidents[mid], RecentResolved(a.incidents, tenant, fingerprint, p[0].groupedAt);
      JoinedAppends(AlertsOf(p), AlertsOf(q), config, row.number, related, size);
      JoinedOnKeeps(row, AlertsOf(q), config, size);
    }
  }

  lemma CommitJoins(env: Env, db: Db, batch: seq<Handled>, tenant: TenantId, fingerprint: string, now: Time)
    requires TablesOk(db) && GroupsFor(db, tenant)
    ensures CaseIs(db, Committed(env, db, batch), Matching(Landed(env, db, batch), tenant, fingerprint),
                   tenant, fingerprint, env.size)
    ensures RecentResolved(Committed(env, db, batch).incidents, tenant, fingerprint, now)
         == RecentResolved(db.incidents, tenant, fingerprint, now)
  {
    InsertedIsOk(env, db, batch);
    GroupAllJoins(env, Inserted(env, db, batch), Landed(env, db, batch), tenant, fingerprint);
    GroupAllKeepsRecent(env, Inserted(env, db, batch), Landed(env, db, batch), tenant, fingerprint, now);
  }

  // The rows of one fingerprint that land, batch after batch.
  function JoinedBy(env: Env, db: Db, batches: seq<seq<Handled>>, tenant: TenantId, fingerprint: string): seq<Row> {
    if batches == [] then []
    else
      var front, last := batches[..|batches| - 1], batches[|batches| - 1];
      JoinedBy(env, db, front, tenant, fingerprint)
      + Matching(Landed(env, CommitAll(env, db, front), last), tenant, fingerprint)
  }

  lemma {:induction false} CommitAllKeeps(env: Env, db: Db, batches: seq<seq<Handled>>, tenant: TenantId,
      fingerprint: string, now: Time)
    requires TablesOk(db) && GroupsFor(db, tenant)
    ensures TablesOk(CommitAll(env, db, batches)) && CommitAll(env, db, batches).tenants == db.tenants
    ensures RecentResolved(CommitAll(env, db, batches).incidents, tenant, fingerprint, now)
         == RecentResolved(db.incidents, tenant, fingerprint, now)
  {
    if batches != [] {
      var front := batches[..|batches| - 1];
      CommitAllKeeps(env, db, front, tenant, fingerprint, now);
      CommitKeepsTables(env, CommitAll(env, db, front), batches[|batches| - 1]);
      CommitJoins(env, CommitAll(env, db, front), batches[|batches| - 1], tenant, fingerprint, now);
    }
  }

  /** Over any number of commits of any batches: the open case of a fingerprint is the
      one before, or the one its first landed row opened, joined by every landed row of
      its tenant and fingerprint and by nothing else, in the order they were grouped. */
  lemma {:induction false} CommitsJoin(env: Env, db: Db, batches: seq<seq<Handled>>, tenant: TenantId,
      fingerprint: string)
    requires TablesOk(db) && GroupsFor(db, tenant)
    ensures CaseIs(db, CommitAll(env, db, batches), JoinedBy(env, db, batches, tenant, fingerprint),
                   tenant, fingerprint, env.size)
  {
    if batches != [] {
      var front, last := batches[..|batches| - 1], batches[|batches| - 1];
      var mid := CommitAll(env, db, front);
      CommitsJoin(env, db, front, tenant, fingerprint);
      var q := Matching(Landed(env, mid, last), tenant, fingerprint);
      var at := if q == [] then 0 else q[0].groupedAt;
      CommitAllKeeps(env, db, front, tenant, fingerprint, at);
      CommitJoins(env, mid, last, tenant, fingerprint, at);
      CasesCompose(db, mid, CommitAll(env, db, batches), JoinedBy(env, db, front, tenant, fingerprint), q,
                   tenant, fingerprint, env.size);
    }
  }

  // ---- the closed forms -------------------------------------------------------

  function MaxBy(key: Alert -> int, alerts: seq<Alert>): int
    requires alerts != []
  {
    var last := key(alerts[|alerts| - 1]);
    if |alerts| == 1 then last else Max(MaxBy(key, alerts[..|alerts| - 1]), last)
  }

  function Level(a: Alert): int { a.ruleLevel }

  function Seen(a: Alert): int { a.timestamp }

  function Earlier(a: Alert): int { -a.timestamp }

  function CountRule(alerts: seq<Alert>, rule: int): nat {
    if alerts == [] then 0
    else CountRule(alerts[..|alerts| - 1], rule) + if alerts[|alerts| - 1].ruleId == rule then 1 else 0
  }

  lemma {:induction false} JoinedTimes(alerts: seq<Alert>, config: TenantConfig, number: int, related: Option<nat>,
      size: Sizer)
    requires alerts != []
    ensures var row := Joined(alerts, config, number, related, size);
      && row.alertCount == |alerts|
      && row.clock.severity == MaxBy(Level, alerts)
      && row.clock.firstSeen == -MaxBy(Earlier, alerts)
      && row.lastSeen == MaxBy(Seen, alerts)
  {
    var front, last := alerts[..|alerts| - 1], alerts[|alerts| - 1];
    if front != [] {
      JoinedTimes(front, config, number, related, size);
      var before := Joined(front, config, number, related, size);
      AttachIs(before, last, config.policy, IsLate(before, last, config.windowMinutes), size);
    }
  }

  lemma {:induction false} JoinedRule(alerts: seq<Alert>, config: TenantConfig, number: int, related: Option<nat>,
      size: Sizer, rule: int)
    requires alerts != []
    ensures CountOf(Joined(alerts, config, number, related, size).ruleSummary, Rule(rule)) == CountRule(alerts, rule)
  {
    var front, last := alerts[..|alerts| - 1], alerts[|alerts| - 1];
    if front == [] {
      assert CountRule(front, rule) == 0;
    } else {
      JoinedRule(front, config, number, related, size, rule);
      var before := Joined(front, config, number, related, size);
      AttachIs(before, last, config.policy, IsLate(before, last, config.windowMinutes), size);
    }
  }

  // The alerts that came more than a window after the latest before them.
  function LateCount(alerts: seq<Alert>, windowMinutes: int): nat {
    if |alerts| <= 1 then 0
    else
      var front, last := alerts[..|alerts| - 1], alerts[|alerts| - 1];
      LateCount(front, windowMinutes) + if last.timestamp - MaxBy(Seen, front) > windowMinutes * MINUTE then 1 else 0
  }

  lemma {:induction false} JoinedLate(alerts: seq<Alert>, config: TenantConfig, number: int, related: Option<nat>,
      size: Sizer)
    requires alerts != []
    ensures CountOf(Joined(alerts, config, number, related, size).ruleSummary, Late)
         == LateCount(alerts, config.windowMinutes)
    ensures LateCount(alerts, config.windowMinutes) <= |alerts| - 1
  {
    var front, last := alerts[..|alerts| - 1], alerts[|alerts| - 1];
    if front != [] {
      JoinedLate(front, config, number, related, size);
      JoinedTimes(front, config, number, related, size);
      var before := Joined(front, config, number, related, size);
      AttachIs(before, last, config.policy, IsLate(before, last, config.windowMinutes), size);
    }
  }

  /** Count, severity, first and last seen, late arrivals and every per-rule count of a
      joined case in closed form; late arrivals never exceed the alerts after the first. */
  lemma JoinedIs(alerts: seq<Alert>, config: TenantConfig, number: int, related: Option<nat>, size: Sizer)
    requires alerts != []
    ensures var row := Joined(alerts, config, number, related, size);
      && row.alertCount == |alerts|
      && row.clock.severity == MaxBy(Level, alerts)
      && row.clock.firstSeen == -MaxBy(Earlier, alerts)
      && row.lastSeen == MaxBy(Seen, alerts)
      && CountOf(row.ruleSummary, Late) == LateCount(alerts, config.windowMinutes) <= row.alertCount - 1
      && forall rule :: CountOf(row.ruleSummary, Rule(rule)) == CountRule(alerts, rule)
  {
    var row := Joined(alerts, config, number, related, size);
    JoinedTimes(alerts, config, number, related, size);
    JoinedLate(alerts, config, number, related, size);
    forall rule ensures CountOf(row.ruleSummary, Rule(rule)) == CountRule(alerts, rule) {
      JoinedRule(alerts, config, number, related, size, rule);
    }
  }

  lemma AttachIs(row: IncidentRow, a: Alert, policy: seq<SlaRow>, late: bool, size: Sizer)
    ensures var r := AttachRow(row, a, policy, late, size);
      && r.alertCount == row.alertCount + 1
      && r.clock.severity == Max(row.clock.severity, a.ruleLevel)
      && r.clock.firstSeen == Min(row.clock.firstSeen, a.timestamp)
      && r.lastSeen == Max(row.lastSeen, a.timestamp)
      && CountOf(r.ruleSummary, Late) == CountOf(row.ruleSummary, Late) + (if late then 1 else 0)
      && forall rule :: CountOf(r.ruleSummary, Rule(rule))
           == CountOf(row.ruleSummary, Rule(rule)) + if a.ruleId == rule then 1 else 0
  {
  }

  function ViewsOf(alerts: seq<Alert>): seq<View> {
    seq(|alerts|, i requires 0 <= i < |alerts| =>
      View.View(alerts[i].timestamp, alerts[i].ruleDesc, alerts[i].ruleLevel, alerts[i].ecs, alerts[i].related))
  }

  /** The evidence of a joined case is the evidence fold over its alerts in the order
      they joined. */
  lemma {:induction false} JoinedEvidence(alerts: seq<Alert>, config: TenantConfig, number: int, related: Option<nat>,
      size: Sizer)
    requires alerts != []
    ensures Joined(alerts, config, number, related, size).evidence == Fold(ViewsOf(alerts), size)
  {
    var front, views := alerts[..|alerts| - 1], ViewsOf(alerts);
    assert views[..|views| - 1] == ViewsOf(front);
    if front == [] {
      assert views[..0] == [];
    } else {
      JoinedEvidence(front, config, number, related, size);
    }
  }

  // ---- order does not matter --------------------------------------------------

  lemma {:induction false} MaxByIs(key: Alert -> int, alerts: seq<Alert>)
    requires alerts != []
    ensures forall a | a in alerts :: key(a) <= MaxBy(key, alerts)
    ensures exists a :: a in alerts && key(a) == MaxBy(key, alerts)
  {
    var front, last := alerts[..|alerts| - 1], alerts[|alerts| - 1];
    assert alerts == front + [last];
    assert last in alerts;
    if front != [] {
      MaxByIs(key, front);
      var a :| a in front && key(a) == MaxBy(key, front);
      assert a in alerts;
    }
  }

  lemma MaxByOfPermutation(key: Alert -> int, p: seq<Alert>, q: seq<Alert>)
    requires multiset(p) == multiset(q) && p != [] && q != []
    ensures MaxBy(key, p) == MaxBy(key, q)
  {
    MaxByIs(key, p);
    MaxByIs(key, q);
    var a :| a in p && key(a) == MaxBy(key, p);
    var b :| b in q && key(b) == MaxBy(key, q);
    assert a in multiset(q) && b in multiset(p);
  }

  lemma {:induction false} CountRuleAppend(a: seq<Alert>, b: seq<Alert>, rule: int)
    ensures CountRule(a + b, rule) == CountRule(a, rule) + CountRule(b, rule)
  {
    if b == [] {
      assert a + b == a;
    } else {
      CountRuleAppend(a, b[..|b| - 1], rule);
      assert (a + b)[..|a + b| - 1] == a + b[..|b| - 1];
    }
  }

  function Without(s: seq<Alert>, k: nat): seq<Alert>
    requires k < |s|
  {
    s[..k] + s[k + 1..]
  }

  lemma WithoutOne(s: seq<Alert>, k: nat)
    requires k < |s|
    ensures multiset(s) == multiset(Without(s, k)) + multiset{s[k]}
  {
    assert s == s[..k] + [s[k]] + s[k + 1..];
  }

  lemma CountRuleWithout(s: seq<Alert>, k: nat, rule: int)
    requires k < |s|
    ensures CountRule(s, rule) == CountRule(Without(s, k), rule) + if s[k].ruleId == rule then 1 else 0
  {
    assert s[..k + 1][..k] == s[..k];
    assert s == s[..k + 1] + s[k + 1..];
    CountRuleAppend(s[..k + 1], s[k + 1..], rule);
    CountRuleAppend(s[..k], s[k + 1..], rule);
  }

  lemma {:induction false} CountRuleOfPermutation(p: seq<Alert>, q: seq<Alert>, rule: int)
    requires multiset(p) == multiset(q)
    ensures CountRule(p, rule) == CountRule(q, rule)
  {
    if p == [] {
      assert |multiset(q)| == |q|;
    } else {
      var last := p[|p| - 1];
      assert last in multiset(q);
      var k :| 0 <= k < |q| && q[k] == last;
      WithoutOne(p, |p| - 1);
      WithoutOne(q, k);
      CountRuleWithout(p, |p| - 1, rule);
      CountRuleWithout(q, k, rule);
      SameRest(multiset(Without(p, |p| - 1)), multiset(Without(q, k)), last);
      CountRuleOfPermutation(Without(p, |p| - 1), Without(q, k), rule);
    }
  }

  lemma SameRest<T>(a: multiset<T>, b: multiset<T>, x: T)
    requires a + multiset{x} == b + multiset{x}
    ensures a == b
  {
    assert a == (a + multiset{x}) - multiset{x};
  }

  /** Two cases joined by the same alerts in different orders - even opened by a
      different one - agree on count, severity, first and last seen and on every
      per-rule count. */
  lemma OrderDoesNotMatter(p: seq<Alert>, q: seq<Alert>, config: TenantConfig,
                           number: int, related: Option<nat>, related': Option<nat>, size: Sizer)
    requires multiset(p) == multiset(q) && p != [] && q != []
    ensures var r, r' := Joined(p, config, number, related, size), Joined(q, config, number, related', size);
      && r.alertCount == r'.alertCount
      && r.clock.severity == r'.clock.severity
      && r.clock.firstSeen == r'.clock.firstSeen
      && r.lastSeen == r'.lastSeen
      && forall rule :: CountOf(r.ruleSummary, Rule(rule)) == CountOf(r'.ruleSummary, Rule(rule))
  {
    JoinedIs(p, config, number, related, size);
    JoinedIs(q, config, number, related', size);
    assert |multiset(p)| == |p| && |multiset(q)| == |q|;
    MaxByOfPermutation(Level, p, q);
    MaxByOfPermutation(Earlier, p, q);
    MaxByOfPermutation(Seen, p, q);
    forall rule ensures CountRule(p, rule) == CountRule(q, rule) {
      CountRuleOfPermutation(p, q, rule);
    }
  }

  // The largest of a start and the keys.
  function MaxFrom(key: Alert -> int, start: int, alerts: seq<Alert>): int {
    if alerts == [] then start else Max(MaxFrom(key, start, alerts[..|alerts| - 1]), key(alerts[|alerts| - 1]))
  }

  lemma {:induction false} MaxFromIs(key: Alert -> int, start: int, alerts: seq<Alert>)
    ensures MaxFrom(key, start, alerts) == if alerts == [] then start else Max(start, MaxBy(key, alerts))
  {
    if |alerts| > 1 {
      MaxFromIs(key, start, alerts[..|alerts| - 1]);
    } else if |alerts| == 1 {
      assert alerts[..0] == [];
    }
  }

  lemma MaxFromOfPermutation(key: Alert -> int, start: int, p: seq<Alert>, q: seq<Alert>)
    requires multiset(p) == multiset(q)
    ensures MaxFrom(key, start, p) == MaxFrom(key, start, q)
  {
    assert |multiset(p)| == |p| && |multiset(q)| == |q|;
    MaxFromIs(key, start, p);
    MaxFromIs(key, start, q);
    if p != [] { MaxByOfPermutation(key, p, q); }
  }

  // The closed form of joining an existing case.
  lemma {:induction false} JoinedOnTimes(row: IncidentRow, alerts: seq<Alert>, config: TenantConfig, size: Sizer)
    ensures var r := JoinedOn(row, alerts, config, size);
      && r.alertCount == row.alertCount + |alerts|
      && r.clock.severity == MaxFrom(Level, row.clock.severity, alerts)
      && r.clock.firstSeen == -MaxFrom(Earlier, -row.clock.firstSeen, alerts)
      && r.lastSeen == MaxFrom(Seen, row.lastSeen, alerts)
  {
    if alerts != [] {
      var front, last := alerts[..|alerts| - 1], alerts[|alerts| - 1];
      JoinedOnTimes(row, front, config, size);
      var before := JoinedOn(row, front, config, size);
      AttachIs(before, last, config.policy, IsLate(before, last, config.windowMinutes), size);
    }
  }

  lemma {:induction false} JoinedOnRule(row: IncidentRow, alerts: seq<Alert>, config: TenantConfig, size: Sizer,
      rule: int)
    ensures CountOf(JoinedOn(row, alerts, config, size).ruleSummary, Rule(rule))
         == CountOf(row.ruleSummary, Rule(rule)) + CountRule(alerts, rule)
  {
    if alerts != [] {
      var front, last := alerts[..|alerts| - 1], alerts[|alerts| - 1];
      JoinedOnRule(row, front, config, size, rule);
      var before := JoinedOn(row, front, config, size);
      AttachIs(before, last, config.policy, IsLate(before, last, config.windowMinutes), size);
    }
  }

  /** The same for alerts that join a case already open. */
  lemma OrderOfJoiningDoesNotMatter(row: IncidentRow, p: seq<Alert>, q: seq<Alert>, config: TenantConfig, size: Sizer,
      rule: int)
    requires multiset(p) == multiset(q)
    ensures var r, r' := JoinedOn(row, p, config, size), JoinedOn(row, q, config, size);
      && r.alertCount == r'.alertCount
      && r.clock.severity == r'.clock.severity
      && r.clock.firstSeen == r'.clock.firstSeen
      && r.lastSeen == r'.lastSeen
      && CountOf(r.ruleSummary, Rule(rule)) == CountOf(r'.ruleSummary, Rule(rule))
  {
    assert |multiset(p)| == |p| && |multiset(q)| == |q|;
    JoinedOnTimes(row, p, config, size);
    JoinedOnTimes(row, q, config, size);
    MaxFromOfPermutation(Level, row.clock.severity, p, q);
    MaxFromOfPermutation(Earlier, -row.clock.firstSeen, p, q);
    MaxFromOfPermutation(Seen, row.lastSeen, p, q);
    JoinedOnRule(row, p, config, size, rule);
    JoinedOnRule(row, q, config, size, rule);
    CountRuleOfPermutation(p, q, rule);
  }

  // ---- the rule counts add up -------------------------------------------------

  ghost function Total(summary: map<SummaryKey, int>): int {
    if summary == map[] then 0
    else
      var key :| key in summary;
      summary[key] + Total(summary - {key})
  }

  lemma {:induction false} TotalSplits(summary: map<SummaryKey, int>, key: SummaryKey)
    requires key in summary
    ensures Total(summary) == summary[key] + Total(summary - {key})
    decreases |summary|
  {
    var other :| other in summary && Total(summary) == summary[other] + Total(summary - {other});
    if other != key {
      var rest := summary - {other};
      assert rest.Keys == summary.Keys - {other};
      TotalSplits(rest, key);
      assert rest - {key} == (summary - {key}) - {other};
      assert (summary - {key}).Keys == summary.Keys - {key};
      TotalSplits(summary - {key}, other);
    }
  }

  lemma BumpAddsOne(summary: map<SummaryKey, int>, key: SummaryKey)
    ensures Total(Bump(summary, key)) == Total(summary) + 1
  {
    TotalSplits(Bump(summary, key), key);
    if key in summary {
      TotalSplits(summary, key);
      assert Bump(summary, key) - {key} == summary - {key};
    } else {
      assert Bump(summary, key) - {key} == summary;
    }
  }

  /** The summary's entries add up to the alerts plus the late arrivals: the per-rule
      counts alone sum to the alert count. */
  lemma {:induction false} RuleCountsAddUp(alerts: seq<Alert>, config: TenantConfig, number: int,
      related: Option<nat>, size: Sizer)
    requires alerts != []
    ensures var row := Joined(alerts, config, number, related, size);
      && Total(row.ruleSummary) == row.alertCount + CountOf(row.ruleSummary, Late)
      && Total(row.ruleSummary - {Late}) == row.alertCount
  {
    var front, last := alerts[..|alerts| - 1], alerts[|alerts| - 1];
    var row := Joined(alerts, config, number, related, size);
    if front == [] {
      assert row.ruleSummary == Bump(map[], Rule(last.ruleId));
      BumpAddsOne(map[], Rule(last.ruleId));
    } else {
      RuleCountsAddUp(front, config, number, related, size);
      var before := Joined(front, config, number, related, size);
      var late := IsLate(before, last, config.windowMinutes);
      BumpAddsOne(before.ruleSummary, Late);
      var summary := if late then Bump(before.ruleSummary, Late) else before.ruleSummary;
      BumpAddsOne(summary, Rule(last.ruleId));
    }
    if Late in row.ruleSummary {
      TotalSplits(row.ruleSummary, Late);
    } else {
      assert row.ruleSummary - {Late} == row.ruleSummary;
    }
  }

  // ---- entities ---------------------------------------------------------------

  lemma UpsertsSwap(entities: map<EntityKey, EntityRow>, d: EntityKey, at: Time, e: EntityKey, when: Time)
    ensures Upsert(Upsert(entities, d, at), e, when) == Upsert(Upsert(entities, e, when), d, at)
  {
  }

  lemma {:induction false} UpsertCommutes(entities: map<EntityKey, EntityRow>, listed: seq<EntityKey>, at: Time,
      e: EntityKey, when: Time)
    ensures Upsert(UpsertAll(entities, listed, at), e, when) == UpsertAll(Upsert(entities, e, when), listed, at)
    decreases listed
  {
    hide Upsert;
    if listed != [] {
      UpsertCommutes(entities, listed[..|listed| - 1], at, e, when);
      UpsertsSwap(UpsertAll(entities, listed[..|listed| - 1], at), listed[|listed| - 1], at, e, when);
    }
  }

  /** Nor does order matter to entities: two alerts leave the same rows - first and
      last seen and counts - whichever is written first. */
  lemma {:induction false} EntityOrderDoesNotMatter(entities: map<EntityKey, EntityRow>, p: seq<EntityKey>, at: Time,
      q: seq<EntityKey>, when: Time)
    ensures UpsertAll(UpsertAll(entities, p, at), q, when) == UpsertAll(UpsertAll(entities, q, when), p, at)
  {
    if q != [] {
      EntityOrderDoesNotMatter(entities, p, at, q[..|q| - 1], when);
      UpsertCommutes(UpsertAll(entities, q[..|q| - 1], when), p, at, q[|q| - 1], when);
    }
  }
}
