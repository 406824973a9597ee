/** In which order the alerts of a batch join a case, by their positions in the batch: by
    timestamp and at the same instant by position; and what that decides, the title, the
    first and last sighting and the evidence of the case that they open or join. */
module LandingOrder {
  import opened Wrappers
  import opened Sorting
  import opened Evidence
  import opened Model
  import opened Tables
  import opened Grouping
  import opened IngestConsumer
  import opened ExactlyOnce
  import opened Batching
  import opened Joining

  function AlertOf(env: Env, h: Handled): Alert
    requires h.entry.Entry?
  {
    RowOf(env, h).alert
  }

  // Entry `i` of the batch is an alert of this tenant and fingerprint that was not stored.
  predicate Lands(env: Env, db: Db, batch: seq<Handled>, tenant: TenantId, fingerprint: string, i: nat) {
    && i < |batch| && batch[i].entry.Entry?
    && AlertOf(env, batch[i]).tenant == tenant && AlertOf(env, batch[i]).fingerprint == fingerprint
    && AlertOf(env, batch[i]).Key() !in db.alerts
  }

  // Entry `i` comes before entry `j`: by timestamp, and by position at the same instant.
  predicate Precedes(env: Env, batch: seq<Handled>, i: nat, j: nat)
    requires i < |batch| && batch[i].entry.Entry? && j < |batch| && batch[j].entry.Entry?
  {
    var a, b := AlertOf(env, batch[i]).timestamp, AlertOf(env, batch[j]).timestamp;
    a < b || (a == b && i < j)
  }

  // The entries at these positions, each a row.
  ghost predicate AreRows(env: Env, batch: seq<Handled>, at: seq<nat>, rows: seq<Row>) {
    |at| == |rows| && forall k | 0 <= k < |at| ::
      at[k] < |batch| && batch[at[k]].entry.Entry? && rows[k] == RowOf(env, batch[at[k]])
  }

  // ---- what each stage keeps --------------------------------------------------

  function IsEntry(batch: seq<Handled>): nat -> bool { (i: nat) => i < |batch| && batch[i].entry.Entry? }

  function IsNew(alerts: map<AlertKey, Stored>, rows: seq<Row>): nat -> bool {
    (i: nat) => i < |rows| && rows[i].Key() !in alerts
  }

  function IsOfCase(rows: seq<Row>, tenant: TenantId, fingerprint: string): nat -> bool {
    (i: nat) => i < |rows| && IsFor(tenant, fingerprint)(rows[i])
  }

  lemma {:induction false} RowPositions(env: Env, batch: seq<Handled>) returns (at: seq<nat>)
    ensures AreRows(env, batch, at, RowsOf(env, batch)) && Rising(at) && Exactly(at, |batch|, IsEntry(batch))
    decreases |batch|
  {
    hide RowOf;
    if batch == [] {
      at := [];
    } else {
      var n := |batch| - 1;
      at := RowPositions(env, batch[..n]);
      ExactlySame(at, n, IsEntry(batch[..n]), IsEntry(batch));
      OneMorePosition(at, n, IsEntry(batch));
      if batch[n].entry.Entry? { at := at + [n]; }
    }
  }

  lemma {:induction false} FreshPositions(alerts: map<AlertKey, Stored>, rows: seq<Row>) returns (at: seq<nat>)
    ensures Taken(rows, at, Fresh(alerts, rows)) && Rising(at) && Exactly(at, |rows|, IsNew(alerts, rows))
    decreases |rows|
  {
    if rows == [] {
      at := [];
    } else {
      var n := |rows| - 1;
      at := FreshPositions(alerts, rows[..n]);
      ExactlySame(at, n, IsNew(alerts, rows[..n]), IsNew(alerts, rows));
      OneMorePosition(at, n, IsNew(alerts, rows));
      if rows[n].Key() !in alerts { at := at + [n]; }
    }
  }

  lemma {:induction false} MatchingPositions(rows: seq<Row>, tenant: TenantId, fingerprint: string)
      returns (at: seq<nat>)
    ensures Taken(rows, at, Matching(rows, tenant, fingerprint)) && Rising(at)
    ensures Exactly(at, |rows|, IsOfCase(rows, tenant, fingerprint))
    decreases |rows|
  {
    if rows == [] {
      at := [];
    } else {
      var n := |rows| - 1;
      at := MatchingPositions(rows[..n], tenant, fingerprint);
      ExactlySame(at, n, IsOfCase(rows[..n], tenant, fingerprint), IsOfCase(rows, tenant, fingerprint));
      OneMorePosition(at, n, IsOfCase(rows, tenant, fingerprint));
      if IsFor(tenant, fingerprint)(rows[n]) { at := at + [n]; }
    }
  }

  lemma RowsThrough(env: Env, batch: seq<Handled>, outer: seq<nat>, rows: seq<Row>, inner: seq<nat>, out: seq<Row>)
    requires AreRows(env, batch, outer, rows) && Taken(rows, inner, out)
    ensures AreRows(env, batch, Through(outer, inner), out)
  {
    hide RowOf;
  }

  // ---- the rows that land, by their positions in the batch --------------------

  function LandsNew(env: Env, alerts: map<AlertKey, Stored>, batch: seq<Handled>): nat -> bool {
    (i: nat) => i < |batch| && batch[i].entry.Entry? && RowOf(env, batch[i]).Key() !in alerts
  }

  lemma FreshInBatch(env: Env, alerts: map<AlertKey, Stored>, batch: seq<Handled>) returns (at: seq<nat>)
    ensures AreRows(env, batch, at, Fresh(alerts, RowsOf(env, batch))) && Rising(at)
    ensures Exactly(at, |batch|, LandsNew(env, alerts, batch))
  {
    hide RowOf, RowsOf, Fresh;
    var rows := RowsOf(env, batch);
    var outer := RowPositions(env, batch);
    var inner := FreshPositions(alerts, rows);
    at := Through(outer, inner);
    RisingThrough(outer, inner);
    RowsThrough(env, batch, outer, rows, inner, Fresh(alerts, rows));
    ExactlyThrough(outer, |batch|, IsEntry(batch), inner, IsNew(alerts, rows), LandsNew(env, alerts, batch));
  }

  ghost predicate InOrder(env: Env, batch: seq<Handled>, at: seq<nat>)
    requires forall k | 0 <= k < |at| :: at[k] < |batch| && batch[at[k]].entry.Entry?
  {
    forall k, l | 0 <= k < l < |at| :: Precedes(env, batch, at[k], at[l])
  }

  lemma OrderThrough(env: Env, batch: seq<Handled>, outer: seq<nat>, rows: seq<Row>, inner: seq<nat>, out: seq<Row>)
    requires AreRows(env, batch, outer, rows) && Rising(outer)
    requires Taken(rows, inner, out) && Stable(At, inner, out)
    ensures AreRows(env, batch, Through(outer, inner), out) && InOrder(env, batch, Through(outer, inner))
  {
    hide RowOf;
    var at := Through(outer, inner);
    RowsThrough(env, batch, outer, rows, inner, out);
    forall k, l | 0 <= k < l < |at| ensures Precedes(env, batch, at[k], at[l]) {
      assert out[k] == RowOf(env, batch[at[k]]) && out[l] == RowOf(env, batch[at[l]]);
      assert At(out[k]) < At(out[l]) || (At(out[k]) == At(out[l]) && inner[k] < inner[l]);
    }
  }

  lemma LandedInBatch(env: Env, db: Db, batch: seq<Handled>) returns (at: seq<nat>)
    ensures AreRows(env, batch, at, Landed(env, db, batch)) && InOrder(env, batch, at)
    ensures Exactly(at, |batch|, LandsNew(env, db.alerts, batch))
  {
    hide RowOf, RowsOf, Fresh, SortBy;
    var rows := Fresh(db.alerts, RowsOf(env, batch));
    var outer := FreshInBatch(env, db.alerts, batch);
    var inner := SortPositions(At, rows);
    at := Through(outer, inner);
    OrderThrough(env, batch, outer, rows, inner, Landed(env, db, batch));
    var lands := LandsNew(env, db.alerts, batch);
    ExactlyThrough(outer, |batch|, lands, inner, IsElement(rows), lands);
  }

  function IsElement(rows: seq<Row>): nat -> bool { (i: nat) => i < |rows| }

  /** In what order alerts join: whatever the batch, the open case of a fingerprint is the
      one before joined by, or is opened by the first and joined by the rest of, exactly
      its newly stored alerts, by timestamp and at the same instant by position. */
  lemma JoinInOrder(env: Env, db: Db, batch: seq<Handled>, tenant: TenantId, fingerprint: string)
      returns (at: seq<nat>, rows: seq<Row>)
    requires TablesOk(db) && GroupsFor(db, tenant)
    ensures AreRows(env, batch, at, rows) && InOrder(env, batch, at)
    ensures forall i: nat :: i in at <==> Lands(env, db, batch, tenant, fingerprint, i)
    ensures CaseIs(db, Committed(env, db, batch), rows, tenant, fingerprint, env.size)
  {
    hide RowOf, RowsOf, Landed, Committed, CaseIs, TablesOk;
    var landed := Landed(env, db, batch);
    var outer := LandedInBatch(env, db, batch);
    var inner := MatchingPositions(landed, tenant, fingerprint);
    at, rows := Through(outer, inner), Matching(landed, tenant, fingerprint);
    CommitJoins(env, db, batch, tenant, fingerprint, 0);
    RowsThrough(env, batch, outer, landed, inner, rows);
    var lands: nat -> bool := (i: nat) => Lands(env, db, batch, tenant, fingerprint, i);
    forall j | 0 <= j < |outer| ensures IsOfCase(landed, tenant, fingerprint)(j) == lands(outer[j]) {
      assert outer[j] in outer && landed[j] == RowOf(env, batch[outer[j]]);
    }
    ExactlyThrough(outer, |batch|, LandsNew(env, db.alerts, batch), inner, IsOfCase(landed, tenant, fingerprint),
                   lands);
    assert Exactly(at, |batch|, lands);
  }

  // ---- what the order decides -------------------------------------------------

  // The alerts of a batch that land on a case come between these two, both included.
  ghost predicate FirstAndLast(env: Env, db: Db, batch: seq<Handled>, tenant: TenantId, fingerprint: string, i: nat,
      j: nat)
  {
    && Lands(env, db, batch, tenant, fingerprint, i) && Lands(env, db, batch, tenant, fingerprint, j)
    && forall k | Lands(env, db, batch, tenant, fingerprint, k) ::
         (k == i || Precedes(env, batch, i, k)) && (k == j || Precedes(env, batch, k, j))
  }

  lemma EndsOfOrder(env: Env, db: Db, batch: seq<Handled>, tenant: TenantId, fingerprint: string, at: seq<nat>)
    requires at != [] && forall i: nat :: i in at <==> Lands(env, db, batch, tenant, fingerprint, i)
    requires forall k | 0 <= k < |at| :: at[k] < |batch| && batch[at[k]].entry.Entry?
    requires InOrder(env, batch, at)
    ensures FirstAndLast(env, db, batch, tenant, fingerprint, at[0], at[|at| - 1])
  {
    hide RowOf;
    forall i | Lands(env, db, batch, tenant, fingerprint, i)
      ensures i == at[0] || Precedes(env, batch, at[0], i)
      ensures i == at[|at| - 1] || Precedes(env, batch, i, at[|at| - 1])
    {
      var k :| 0 <= k < |at| && at[k] == i;
    }
  }

  // A document about an alert, its body kept or shed.
  predicate IsAbout(doc: Option<Doc>, a: Alert) {
    doc.Some? && doc.value.at == a.timestamp && doc.value.ruleDesc == a.ruleDesc && doc.value.ruleLevel == a.ruleLevel
  }

  lemma {:induction false} JoinedTitle(alerts: seq<Alert>, config: TenantConfig, number: int, related: Option<nat>,
      size: Sizer)
    requires alerts != []
    ensures Joined(alerts, config, number, related, size).title
         == alerts[0].ruleDesc[..Min(|alerts[0].ruleDesc|, 200)]
    decreases |alerts|
  {
    hide Update;
    if |alerts| > 1 { JoinedTitle(alerts[..|alerts| - 1], config, number, related, size); }
  }

  lemma OpenedIsAbout(alerts: seq<Alert>, config: TenantConfig, number: int, related: Option<nat>, size: Sizer)
    requires alerts != []
    ensures var row, first, last := Joined(alerts, config, number, related, size), alerts[0], alerts[|alerts| - 1];
      && row.title == first.ruleDesc[..Min(|first.ruleDesc|, 200)]
      && IsAbout(row.evidence.first, first) && IsAbout(row.evidence.latest, last)
  {
    hide Joined, Fold, Trim;
    JoinedTitle(alerts, config, number, related, size);
    JoinedEvidence(alerts, config, number, related, size);
    FirstIsTheFirstAlert(ViewsOf(alerts), size);
  }

  // Rising timestamps.
  ghost predicate InTime(alerts: seq<Alert>) {
    forall k, l | 0 <= k < l < |alerts| :: alerts[k].timestamp <= alerts[l].timestamp
  }

  lemma OpenedTimes(alerts: seq<Alert>, config: TenantConfig, number: int, related: Option<nat>, size: Sizer)
    requires alerts != [] && InTime(alerts)
    ensures var row := Joined(alerts, config, number, related, size);
      && row.clock.firstSeen == alerts[0].timestamp && row.lastSeen == alerts[|alerts| - 1].timestamp
      && row.alertCount == |alerts|
  {
    hide Joined;
    JoinedTimes(alerts, config, number, related, size);
    MaxByIs(Earlier, alerts);
    MaxByIs(Seen, alerts);
    assert alerts[0] in alerts && alerts[|alerts| - 1] in alerts;
  }

  lemma RowsInTime(env: Env, batch: seq<Handled>, at: seq<nat>, rows: seq<Row>)
    requires AreRows(env, batch, at, rows) && InOrder(env, batch, at)
    ensures InTime(AlertsOf(rows))
  {
    hide RowOf;
    forall k, l | 0 <= k < l < |rows| ensures AlertsOf(rows)[k].timestamp <= AlertsOf(rows)[l].timestamp {
      assert Precedes(env, batch, at[k], at[l]);
    }
  }

  /** A case opened by a commit is named after its earliest landed alert, first seen with
      it, its first evidence is about it, and its latest about the latest landed. */
  lemma OpenedByTheEarliest(env: Env, db: Db, batch: seq<Handled>, tenant: TenantId, fingerprint: string)
      returns (i: nat, j: nat)
    requires TablesOk(db) && GroupsFor(db, tenant) && FindOpen(db.incidents, tenant, fingerprint).None?
    requires exists k :: Lands(env, db, batch, tenant, fingerprint, k)
    ensures FirstAndLast(env, db, batch, tenant, fingerprint, i, j)
    ensures var after := Committed(env, db, batch).incidents;
      var open, first, last := FindOpen(after, tenant, fingerprint), AlertOf(env, batch[i]), AlertOf(env, batch[j]);
      && open.Some?
      && after[open.value].title == first.ruleDesc[..Min(|first.ruleDesc|, 200)]
      && after[open.value].clock.firstSeen == first.timestamp && after[open.value].lastSeen == last.timestamp
      && IsAbout(after[open.value].evidence.first, first) && IsAbout(after[open.value].evidence.latest, last)
  {
    hide RowOf, Committed, Joined, TablesOk, Lands, FirstAndLast;
    var at, rows := JoinInOrder(env, db, batch, tenant, fingerprint);
    var k: nat :| Lands(env, db, batch, tenant, fingerprint, k);
    assert k in at;
    EndsOfOrder(env, db, batch, tenant, fingerprint, at);
    i, j := at[0], at[|at| - 1];
    RowsInTime(env, batch, at, rows);
    var after := Committed(env, db, batch).incidents;
    var number := after[FindOpen(after, tenant, fingerprint).value].number;
    var related := RecentResolved(db.incidents, tenant, fingerprint, rows[0].groupedAt);
    OpenedIsAbout(AlertsOf(rows), db.tenants[tenant], number, related, env.size);
    OpenedTimes(AlertsOf(rows), db.tenants[tenant], number, related, env.size);
  }

  lemma {:induction false} JoinedOnIsAbout(row: IncidentRow, alerts: seq<Alert>, config: TenantConfig, size: Sizer)
    requires alerts != [] && InTime(alerts)
    ensures var after, last := JoinedOn(row, alerts, config, size), alerts[|alerts| - 1];
      && after.title == row.title
      && after.clock.firstSeen == Min(row.clock.firstSeen, alerts[0].timestamp)
      && after.lastSeen == Max(row.lastSeen, last.timestamp)
      && after.alertCount == row.alertCount + |alerts|
      && IsAbout(after.evidence.latest, last)
    decreases |alerts|
  {
    hide Update, Fold;
    var front, last := alerts[..|alerts| - 1], alerts[|alerts| - 1];
    var before := JoinedOn(row, front, config, size);
    if front != [] { JoinedOnIsAbout(row, front, config, size); }
    OneUpdate(before.evidence, last.View(), false, size);
    AttachIs(before, last, config.policy, IsLate(before, last, config.windowMinutes), size);
  }

  /** An open case joined by a commit keeps its name, and its latest evidence is about the
      latest landed alert. */
  lemma JoinedByTheLatest(env: Env, db: Db, batch: seq<Handled>, tenant: TenantId, fingerprint: string)
      returns (i: nat, j: nat)
    requires TablesOk(db) && GroupsFor(db, tenant) && FindOpen(db.incidents, tenant, fingerprint).Some?
    requires exists k :: Lands(env, db, batch, tenant, fingerprint, k)
    ensures FirstAndLast(env, db, batch, tenant, fingerprint, i, j)
    ensures var after, open := Committed(env, db, batch).incidents, FindOpen(db.incidents, tenant, fingerprint);
      var id, first, last := open.value, AlertOf(env, batch[i]), AlertOf(env, batch[j]);
      && FindOpen(after, tenant, fingerprint) == open
      && after[id].title == db.incidents[id].title
      && after[id].clock.firstSeen == Min(db.incidents[id].clock.firstSeen, first.timestamp)
      && after[id].lastSeen == Max(db.incidents[id].lastSeen, last.timestamp)
      && IsAbout(after[id].evidence.latest, last)
  {
    hide RowOf, Committed, JoinedOn, TablesOk, Lands, FirstAndLast;
    var at, rows := JoinInOrder(env, db, batch, tenant, fingerprint);
    var k: nat :| Lands(env, db, batch, tenant, fingerprint, k);
    assert k in at;
    EndsOfOrder(env, db, batch, tenant, fingerprint, at);
    i, j := at[0], at[|at| - 1];
    RowsInTime(env, batch, at, rows);
    var open := FindOpen(db.incidents, tenant, fingerprint);
    JoinedOnIsAbout(db.incidents[open.value], AlertsOf(rows), db.tenants[tenant], env.size);
  }
}
