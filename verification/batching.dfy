/** Landed alerts of one fingerprint gather in one open incident, however batched. */
module Batching {
  import opened Wrappers
  import opened Sorting
  import opened Model
  import opened Tables
  import opened Grouping
  import opened IngestConsumer
  import opened TableLaws
  import opened ExactlyOnce

  function IsFor(tenant: TenantId, fingerprint: string): Row -> bool {
    (row: Row) => row.alert.tenant == tenant && row.alert.fingerprint == fingerprint
  }

  function CountFor(rows: seq<Row>, tenant: TenantId, fingerprint: string): nat {
    CountIf(IsFor(tenant, fingerprint), rows)
  }

  /** Grouping rows adds to the open incident of a fingerprint exactly the rows of that
      fingerprint, whatever else is in the batch. */
  lemma {:induction false} GroupAllAdds(env: Env, db: Db, rows: seq<Row>, tenant: TenantId, fingerprint: string)
    requires TablesOk(db) && GroupsFor(db, tenant) && forall r | r in rows :: r.Key() in db.alerts
    ensures OpenCount(GroupAll(env, db, rows).incidents, tenant, fingerprint)
         == OpenCount(db.incidents, tenant, fingerprint) + CountFor(rows, tenant, fingerprint)
  {
    if rows != [] {
      var front, last := rows[..|rows| - 1], rows[|rows| - 1];
      GroupAllAdds(env, db, front, tenant, fingerprint);
      GroupAllKeepsTables(env, db, front);
      var mid := GroupAll(env, db, front);
      if GroupsFor(mid, last.alert.tenant) {
        PlaceAddsOne(mid.incidents, mid.counters, last.alert, mid.tenants[last.alert.tenant], last.groupedAt, env.size,
                     tenant, fingerprint);
      }
    }
  }

  // A row of any other tenant or fingerprint leaves the open case as it is, or absent.
  lemma LeavesOthers(env: Env, db: Db, row: Row, tenant: TenantId, fingerprint: string)
    requires TablesOk(db) && !IsFor(tenant, fingerprint)(row)
    ensures var after, open := GroupOne(env, db, row), FindOpen(db.incidents, tenant, fingerprint);
      && FindOpen(after.incidents, tenant, fingerprint) == open
      && (open.Some? ==> after.incidents[open.value] == db.incidents[open.value])
  {
    hide Place;
    if GroupsFor(db, row.alert.tenant) {
      var config, a := db.tenants[row.alert.tenant], row.alert;
      var p := Place(db.incidents, db.counters, a, config, row.groupedAt, env.size);
      PlaceKeepsUniqueOpen(db.incidents, db.counters, a, config, row.groupedAt, env.size);
      var open := FindOpen(db.incidents, tenant, fingerprint);
      if open.Some? {
        assert IsOpenFor(p.incidents[open.value], tenant, fingerprint);
        OpenIsUnique(p.incidents, tenant, fingerprint, open.value);
      } else {
        forall i | 0 <= i < |p.incidents| ensures !IsOpenFor(p.incidents[i], tenant, fingerprint) {
          if i != p.id { assert !IsOpenFor(db.incidents[i], tenant, fingerprint); }
        }
      }
    }
  }

  /** After grouping, a case of a fingerprint is open exactly when one was or when some
      row is of it; one that was open still is. */
  lemma {:induction false} GroupAllOpens(env: Env, db: Db, rows: seq<Row>, tenant: TenantId, fingerprint: string)
    requires TablesOk(db) && GroupsFor(db, tenant) && forall r | r in rows :: r.Key() in db.alerts
    ensures var open, now := FindOpen(db.incidents, tenant, fingerprint),
                             FindOpen(GroupAll(env, db, rows).incidents, tenant, fingerprint);
      && (now.Some? <==> open.Some? || CountFor(rows, tenant, fingerprint) > 0)
      && (open.Some? ==> now == open)
  {
    if rows != [] {
      var front, last := rows[..|rows| - 1], rows[|rows| - 1];
      GroupAllOpens(env, db, front, tenant, fingerprint);
      GroupAllKeepsTables(env, db, front);
      var mid := GroupAll(env, db, front);
      if IsFor(tenant, fingerprint)(last) {
        StaysOpen(env, mid, last, tenant, fingerprint);
      } else {
        LeavesOthers(env, mid, last, tenant, fingerprint);
      }
    }
  }

  lemma StaysOpen(env: Env, db: Db, row: Row, tenant: TenantId, fingerprint: string)
    requires TablesOk(db) && GroupsFor(db, tenant) && IsFor(tenant, fingerprint)(row)
    ensures var open, now := FindOpen(db.incidents, tenant, fingerprint),
                             FindOpen(GroupOne(env, db, row).incidents, tenant, fingerprint);
      now.Some? && (open.Some? ==> now == open)
  {
    var config, a := db.tenants[tenant], row.alert;
    var p := Place(db.incidents, db.counters, a, config, row.groupedAt, env.size);
    PlaceKeepsUniqueOpen(db.incidents, db.counters, a, config, row.groupedAt, env.size);
    OpenIsUnique(p.incidents, tenant, fingerprint, p.id);
  }

  // The stored alerts of one tenant and fingerprint.
  ghost function StoredFor(alerts: map<AlertKey, Stored>, tenant: TenantId, fingerprint: string): set<AlertKey> {
    set k | k in alerts && alerts[k].alert.tenant == tenant && alerts[k].alert.fingerprint == fingerprint
  }

  lemma StoreOne(alerts: map<AlertKey, Stored>, a: Alert, tenant: TenantId, fingerprint: string)
    requires a.Key() !in alerts
    ensures |StoredFor(alerts[a.Key() := Stored(a, None)], tenant, fingerprint)|
         == |StoredFor(alerts, tenant, fingerprint)|
              + if a.tenant == tenant && a.fingerprint == fingerprint then 1 else 0
  {
    var before := StoredFor(alerts, tenant, fingerprint);
    var after := StoredFor(alerts[a.Key() := Stored(a, None)], tenant, fingerprint);
    if a.tenant == tenant && a.fingerprint == fingerprint {
      assert after == before + {a.Key()};
    } else {
      assert after == before;
    }
  }

  // A tenant's new keys come once each.
  ghost predicate NewOnce(alerts: map<AlertKey, Stored>, rows: seq<Row>, tenant: TenantId) {
    forall k: AlertKey | k.tenant == tenant && k !in alerts :: KeyCount(rows, k) <= 1
  }

  lemma LastIsNew(alerts: map<AlertKey, Stored>, rows: seq<Row>, tenant: TenantId)
    requires NewOnce(alerts, rows, tenant) && rows != []
    ensures var front, last := rows[..|rows| - 1], rows[|rows| - 1];
      && NewOnce(alerts, front, tenant)
      && (last.alert.tenant == tenant ==> (last.Key() in InsertAll(alerts, front) <==> last.Key() in alerts))
  {
    var front, last := rows[..|rows| - 1], rows[|rows| - 1];
    FreshLand(alerts, front);
    forall k: AlertKey | k.tenant == tenant && k !in alerts ensures KeyCount(front, k) <= 1 {
      assert KeyCount(rows, k) <= 1;
    }
    if last.alert.tenant == tenant && last.Key() !in alerts {
      assert KeyCount(rows, last.Key()) <= 1;
      CountIfNone(HasKey(last.Key()), front);
      forall i | 0 <= i < |front| ensures front[i].Key() != last.Key() {
        assert !HasKey(last.Key())(front[i]);
      }
    }
  }

  lemma {:induction false} InsertStores(alerts: map<AlertKey, Stored>, rows: seq<Row>, tenant: TenantId,
      fingerprint: string)
    requires NewOnce(alerts, rows, tenant)
    ensures |StoredFor(InsertAll(alerts, rows), tenant, fingerprint)|
         == |StoredFor(alerts, tenant, fingerprint)| + CountFor(Fresh(alerts, rows), tenant, fingerprint)
  {
    if rows != [] {
      var front, last := rows[..|rows| - 1], rows[|rows| - 1];
      LastIsNew(alerts, rows, tenant);
      InsertStores(alerts, front, tenant, fingerprint);
      CountIfAppend(IsFor(tenant, fingerprint), Fresh(alerts, front), [last]);
      if last.Key() !in InsertAll(alerts, front) {
        StoreOne(InsertAll(alerts, front), last.alert, tenant, fingerprint);
      }
      FreshLand(alerts, front);
    }
  }

  lemma GroupOneKeepsStoredFor(env: Env, db: Db, row: Row, tenant: TenantId, fingerprint: string)
    ensures StoredFor(GroupOne(env, db, row).alerts, tenant, fingerprint) == StoredFor(db.alerts, tenant, fingerprint)
  {
  }

  lemma {:induction false} GroupAllKeepsStoredFor(env: Env, db: Db, rows: seq<Row>, tenant: TenantId,
      fingerprint: string)
    ensures StoredFor(GroupAll(env, db, rows).alerts, tenant, fingerprint) == StoredFor(db.alerts, tenant, fingerprint)
  {
    if rows != [] {
      GroupAllKeepsStoredFor(env, db, rows[..|rows| - 1], tenant, fingerprint);
      GroupOneKeepsStoredFor(env, GroupAll(env, db, rows[..|rows| - 1]), rows[|rows| - 1], tenant, fingerprint);
    }
  }

  ghost predicate AtMostOneOpen(rows: seq<IncidentRow>, tenant: TenantId, fingerprint: string) {
    forall i, j | 0 <= i < |rows| && 0 <= j < |rows| ::
      IsOpenFor(rows[i], tenant, fingerprint) && IsOpenFor(rows[j], tenant, fingerprint) ==> i == j
  }

  lemma NeverTwoOpen(rows: seq<IncidentRow>, tenant: TenantId, fingerprint: string)
    requires UniqueOpen(rows)
    ensures AtMostOneOpen(rows, tenant, fingerprint)
  {
    forall i, j | 0 <= i < |rows| && 0 <= j < |rows| && IsOpenFor(rows[i], tenant, fingerprint)
                  && IsOpenFor(rows[j], tenant, fingerprint)
      ensures i == j
    {
      OpenIsUnique(rows, tenant, fingerprint, i);
      OpenIsUnique(rows, tenant, fingerprint, j);
    }
  }

  // How one fingerprint came out of a step: the open count rose by exactly the alerts of
  // it that were newly stored, and a case is open if one was or if any were.
  ghost predicate Gathered(before: Db, after: Db, tenant: TenantId, fingerprint: string) {
    var open, now := FindOpen(before.incidents, tenant, fingerprint), FindOpen(after.incidents, tenant, fingerprint);
    var landed := |StoredFor(after.alerts, tenant, fingerprint)| - |StoredFor(before.alerts, tenant, fingerprint)|;
    && landed >= 0
    && OpenCount(after.incidents, tenant, fingerprint) == OpenCount(before.incidents, tenant, fingerprint) + landed
    && (now.Some? <==> open.Some? || landed > 0)
    && (open.Some? ==> now == open)
  }

  /** One batch gathers, if only no new key of this tenant comes in it twice. */
  lemma CommitGathers(env: Env, db: Db, batch: seq<Handled>, tenant: TenantId, fingerprint: string)
    requires TablesOk(db) && GroupsFor(db, tenant) && NewOnce(db.alerts, RowsOf(env, batch), tenant)
    ensures Gathered(db, Committed(env, db, batch), tenant, fingerprint)
  {
    var rows, inserted, landed := RowsOf(env, batch), Inserted(env, db, batch), Landed(env, db, batch);
    InsertedIsOk(env, db, batch);
    GroupAllAdds(env, inserted, landed, tenant, fingerprint);
    GroupAllOpens(env, inserted, landed, tenant, fingerprint);
    GroupAllKeepsStoredFor(env, inserted, landed, tenant, fingerprint);
    InsertStores(db.alerts, rows, tenant, fingerprint);
    CountIfOfSorted(IsFor(tenant, fingerprint), At, Fresh(db.alerts, rows));
  }

  function CommitAll(env: Env, db: Db, batches: seq<seq<Handled>>): Db {
    if batches == [] then db
    else Committed(env, CommitAll(env, db, batches[..|batches| - 1]), batches[|batches| - 1])
  }

  // No batch brings a new key of this tenant twice.
  ghost predicate NewOnceEach(env: Env, db: Db, batches: seq<seq<Handled>>, tenant: TenantId) {
    batches == [] ||
    (NewOnceEach(env, db, batches[..|batches| - 1], tenant)
     && NewOnce(CommitAll(env, db, batches[..|batches| - 1]).alerts, RowsOf(env, batches[|batches| - 1]), tenant))
  }

  /** N alerts of one fingerprint landing in any number of batches, split anyhow and
      with any redelivery between batches: exactly one incident is open for them if any
      landed or one was open, and its count rose by exactly N. */
  lemma {:induction false} OneIncidentInAnyBatching(env: Env, db: Db, batches: seq<seq<Handled>>, tenant: TenantId,
      fingerprint: string)
    requires TablesOk(db) && GroupsFor(db, tenant) && NewOnceEach(env, db, batches, tenant)
    ensures var after := CommitAll(env, db, batches);
      && TablesOk(after) && GroupsFor(after, tenant)
      && Gathered(db, after, tenant, fingerprint)
      && AtMostOneOpen(after.incidents, tenant, fingerprint)
  {
    if batches != [] {
      var front, last := batches[..|batches| - 1], batches[|batches| - 1];
      OneIncidentInAnyBatching(env, db, front, tenant, fingerprint);
      CommitGathers(env, CommitAll(env, db, front), last, tenant, fingerprint);
      CommitKeepsTables(env, CommitAll(env, db, front), last);
    }
    NeverTwoOpen(CommitAll(env, db, batches).incidents, tenant, fingerprint);
  }
}
