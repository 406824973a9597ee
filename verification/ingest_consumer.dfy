/** Idempotent insert of a batch, then grouping of the rows that landed. */
module IngestConsumer {
  import Partitions
  import opened Wrappers
  import opened Sorting
  import opened Model
  import opened SlaPolicy
  import opened Related
  import opened Tables
  import opened Parser
  import opened EntityStore
  import opened Grouping

  // The library functions the pipeline is run with; `dateOf` is the date of an instant.
  datatype Env = Env(ops: TextOps, size: Sizer, dateOf: Time -> Partitions.Date)

  // A stream entry either fails to decode or names a tenant and a raw alert, whose text
  // had some length.
  datatype Entry = Malformed | Entry(tenant: TenantId, raw: Raw, bytes: nat)

  // One entry as handled: with the clock readings taken while parsing and grouping it.
  datatype Handled = Handled(entry: Entry, parsedAt: Time, groupedAt: Time)

  datatype Row = Row(alert: Alert, groupedAt: Time)
  {
    function Key(): AlertKey { alert.Key() }
  }

  function RowOf(env: Env, h: Handled): Row
    requires h.entry.Entry?
  {
    Row(Parse(env.ops, h.entry.tenant, h.entry.raw, h.parsedAt), h.groupedAt)
  }

  function RowsOf(env: Env, batch: seq<Handled>): seq<Row> {
    if batch == [] then []
    else
      var before, last := RowsOf(env, batch[..|batch| - 1]), batch[|batch| - 1];
      if last.entry.Malformed? then before else before + [RowOf(env, last)]
  }

  // The insert does nothing on conflict, within the statement too: the first copy lands.
  function InsertAll(alerts: map<AlertKey, Stored>, rows: seq<Row>): map<AlertKey, Stored> {
    if rows == [] then alerts
    else
      var before, last := InsertAll(alerts, rows[..|rows| - 1]), rows[|rows| - 1];
      if last.Key() in before then before else before[last.Key() := Stored(last.alert, None)]
  }

  // The rows whose key landed in this statement; a key repeated in the batch keeps all its copies.
  function Fresh(alerts: map<AlertKey, Stored>, rows: seq<Row>): seq<Row> {
    if rows == [] then []
    else
      var before, last := Fresh(alerts, rows[..|rows| - 1]), rows[|rows| - 1];
      if last.Key() in alerts then before else before + [last]
  }

  function GroupPlaced(db: Db, row: Row, p: Placement): Db {
    var a := row.alert;
    Db(db.tenants,
       if a.Key() in db.alerts then db.alerts[a.Key() := db.alerts[a.Key()].(incident := Some(p.id))] else db.alerts,
       p.incidents,
       p.counters,
       UpsertAll(db.entities, Listed(a.tenant, a.related), a.timestamp),
       LinkAll(db.links, p.id, Listed(a.tenant, a.related), a.primary))
  }

  // Alerts of unknown tenants are stored but not grouped; a negative window marks one.
  predicate GroupsFor(db: Db, tenant: TenantId) {
    tenant in db.tenants && db.tenants[tenant].windowMinutes >= 0
  }

  function GroupOne(env: Env, db: Db, row: Row): Db {
    if !GroupsFor(db, row.alert.tenant) then db
    else
      var config := db.tenants[row.alert.tenant];
      GroupPlaced(db, row, Place(db.incidents, db.counters, row.alert, config, row.groupedAt, env.size))
  }

  function GroupAll(env: Env, db: Db, rows: seq<Row>): Db {
    if rows == [] then db
    else GroupOne(env, GroupAll(env, db, rows[..|rows| - 1]), rows[|rows| - 1])
  }

  function At(row: Row): int { row.alert.timestamp }

  // A committed batch in its two stages: the rows stored, and those of them that are
  // then grouped.
  function Inserted(env: Env, db: Db, batch: seq<Handled>): Db {
    db.(alerts := InsertAll(db.alerts, RowsOf(env, batch)))
  }

  function Landed(env: Env, db: Db, batch: seq<Handled>): seq<Row> {
    SortBy(At, Fresh(db.alerts, RowsOf(env, batch)))
  }

  function Committed(env: Env, db: Db, batch: seq<Handled>): Db {
    GroupAll(env, Inserted(env, db, batch), Landed(env, db, batch))
  }

  // ---- the transaction on the object ------------------------------------------

  method InsertRows(db: Database, rows: seq<Row>) returns (inserted: set<AlertKey>)
    modifies db`alerts
    ensures db.alerts == InsertAll(old(db.alerts), rows)
    ensures forall i | 0 <= i < |rows| :: rows[i].Key() in inserted <==> rows[i].Key() !in old(db.alerts)
  {
    inserted := {};
    for i := 0 to |rows|
      invariant db.alerts == InsertAll(old(db.alerts), rows[..i])
      invariant forall k :: k in db.alerts <==> k in old(db.alerts) || k in inserted
      invariant forall k | k in inserted :: k !in old(db.alerts)
      invariant forall j | 0 <= j < i :: rows[j].Key() in db.alerts
    {
      assert rows[..i + 1][..i] == rows[..i];
      var key := rows[i].Key();
      if key !in db.alerts {
        db.alerts := db.alerts[key := Stored(rows[i].alert, None)];
        inserted := inserted + {key};
      }
    }
    assert rows[..|rows|] == rows;
  }

  method KeepFresh(rows: seq<Row>, inserted: set<AlertKey>,
      ghost alerts: map<AlertKey, Stored>) returns (landed: seq<Row>)
    requires forall i | 0 <= i < |rows| :: rows[i].Key() in inserted <==> rows[i].Key() !in alerts
    ensures landed == Fresh(alerts, rows)
  {
    landed := [];
    for i := 0 to |rows|
      invariant landed == Fresh(alerts, rows[..i])
    {
      assert rows[..i + 1][..i] == rows[..i];
      if rows[i].Key() in inserted { landed := landed + [rows[i]]; }
    }
    assert rows[..|rows|] == rows;
  }

  // What a batch remembers of the tenants it has met; a negative window marks an unknown one.
  predicate Remembered(tenants: map<TenantId, TenantConfig>, windows: map<TenantId, int>,
      policies: map<TenantId, seq<SlaRow>>) {
    && windows.Keys == policies.Keys
    && forall t | t in windows ::
         if t in tenants then windows[t] == tenants[t].windowMinutes && policies[t] == tenants[t].policy
         else windows[t] < 0
  }

  /** Groups the landed rows in timestamp order, reading each tenant's settings once. */
  method Group(env: Env, db: Database, landed: seq<Row>)
    requires forall i | 0 <= i < |landed| :: landed[i].Key() in db.alerts
    modifies db`alerts, db`incidents, db`counters, db`entities, db`links
    ensures db.State() == GroupAll(env, old(db.State()), SortBy(At, landed))
  {
    if landed == [] { return; }
    var rows := SortBy(At, landed);
    SortKeepsElements(At, landed);
    Positions(landed, rows);
    forall i | 0 <= i < |rows| ensures rows[i].Key() in db.alerts {
      assert rows[i] in landed;
    }
    GroupSorted(env, db, rows);
  }

  method GroupSorted(env: Env, db: Database, rows: seq<Row>)
    requires forall i | 0 <= i < |rows| :: rows[i].Key() in db.alerts
    modifies db`alerts, db`incidents, db`counters, db`entities, db`links
    ensures db.State() == GroupAll(env, old(db.State()), rows)
  {
    var windows: map<TenantId, int> := map[];
    var policies: map<TenantId, seq<SlaRow>> := map[];
    for i := 0 to |rows|
      invariant db.State() == GroupAll(env, old(db.State()), rows[..i])
      invariant db.tenants == old(db.tenants)
      invariant forall k | k in old(db.alerts) :: k in db.alerts
      invariant Remembered(db.tenants, windows, policies)
    {
      assert rows[..i + 1][..i] == rows[..i];
      var row := rows[i];
      if row.alert.tenant !in windows {
        windows, policies := Remember(db, row.alert.tenant, windows, policies);
      }
      if windows[row.alert.tenant] < 0 { continue; }
      GroupRow(env, db, row, windows[row.alert.tenant], policies[row.alert.tenant]);
    }
    assert rows[..|rows|] == rows;
  }

  method Remember(db: Database, tenant: TenantId, windows: map<TenantId, int>, policies: map<TenantId, seq<SlaRow>>)
      returns (windows': map<TenantId, int>, policies': map<TenantId, seq<SlaRow>>)
    requires Remembered(db.tenants, windows, policies)
    ensures Remembered(db.tenants, windows', policies') && tenant in windows'
  {
    if tenant !in db.tenants {
      return windows[tenant := -1], policies[tenant := []];
    }
    windows' := windows[tenant := db.tenants[tenant].windowMinutes];
    policies' := policies[tenant := db.tenants[tenant].policy];
  }

  method GroupRow(env: Env, db: Database, row: Row, windowMinutes: int, policy: seq<SlaRow>)
    requires row.alert.tenant in db.tenants && db.tenants[row.alert.tenant] == TenantConfig(windowMinutes, policy)
    requires windowMinutes >= 0
    requires row.Key() in db.alerts
    modifies db`alerts, db`incidents, db`counters, db`entities, db`links
    ensures db.State() == GroupOne(env, old(db.State()), row)
    ensures db.tenants == old(db.tenants) && db.alerts.Keys == old(db.alerts.Keys)
  {
    var a := row.alert;
    var id, created := AttachOrCreate(db, a, windowMinutes, policy, row.groupedAt, env.size);
    db.alerts := db.alerts[a.Key() := db.alerts[a.Key()].(incident := Some(id))];
    var _ := UpsertAndLink(db, a.tenant, id, a.related, a.timestamp, a.primary);
  }

  lemma {:induction false} InsertedKey(alerts: map<AlertKey, Stored>, rows: seq<Row>, k: AlertKey)
    ensures k in InsertAll(alerts, rows) <==> k in alerts || exists i | 0 <= i < |rows| :: rows[i].Key() == k
    ensures k in alerts ==> InsertAll(alerts, rows)[k] == alerts[k]
    decreases rows
  {
    if rows != [] {
      var front, last := rows[..|rows| - 1], rows[|rows| - 1];
      InsertedKey(alerts, front, k);
      if i :| 0 <= i < |rows| && rows[i].Key() == k {
        if i < |front| { assert front[i].Key() == k; }
      }
    }
  }

  lemma {:induction false} FreshIsNew(alerts: map<AlertKey, Stored>, rows: seq<Row>, r: Row)
    requires r in Fresh(alerts, rows)
    ensures r in rows && r.Key() !in alerts
    decreases rows
  {
    var front, last := rows[..|rows| - 1], rows[|rows| - 1];
    if r in Fresh(alerts, front) { FreshIsNew(alerts, front, r); }
    assert rows == front + [last];
  }

  lemma FreshLand(alerts: map<AlertKey, Stored>, rows: seq<Row>)
    ensures forall k :: k in InsertAll(alerts, rows) <==>
      k in alerts || exists i | 0 <= i < |rows| :: rows[i].Key() == k
    ensures forall k | k in alerts :: InsertAll(alerts, rows)[k] == alerts[k]
    ensures forall r | r in Fresh(alerts, rows) :: r in rows && r.Key() !in alerts && r.Key() in InsertAll(alerts, rows)
  {
    hide InsertAll, Fresh;
    forall k
      ensures k in InsertAll(alerts, rows) <==> k in alerts || exists i | 0 <= i < |rows| :: rows[i].Key() == k
      ensures k in alerts ==> InsertAll(alerts, rows)[k] == alerts[k]
    {
      InsertedKey(alerts, rows, k);
    }
    forall r | r in Fresh(alerts, rows)
      ensures r in rows && r.Key() !in alerts && r.Key() in InsertAll(alerts, rows)
    {
      FreshIsNew(alerts, rows, r);
      var i :| 0 <= i < |rows| && rows[i] == r;
      InsertedKey(alerts, rows, rows[i].Key());
    }
  }
}
