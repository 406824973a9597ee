/** One open incident for a fingerprint in the running system, whatever else goes on: any
    crashes, requests and settings. */
module Gathering {
  import opened Sorting
  import opened Model
  import opened Tables
  import opened Parser
  import opened Grouping
  import opened IngestConsumer
  import opened TableLaws
  import opened ExactlyOnce
  import opened Batching
  import opened IncidentsApi
  import opened Delivery

  // A step that brings no new key of the tenant twice, and no request of which closes or
  // reopens a case of the fingerprint.
  ghost predicate Undisturbed(env: Env, s: Sys, e: Event, tenant: TenantId, fingerprint: string) {
    && (e.Commit? && Enabled(s, e) ==>
          NewOnce(s.db.alerts, RowsOf(env, Batch(s.stream, s.held[e.writer].ids, e.readings)), tenant))
    && (e.Request? ==> SameOpen(s.db.incidents, Served(s.db, e.request, e.at).incidents, tenant, fingerprint))
  }

  ghost predicate SameOpen(before: seq<IncidentRow>, after: seq<IncidentRow>, tenant: TenantId, fingerprint: string) {
    |after| == |before| &&
    forall i | 0 <= i < |before| ::
      IsOpenFor(after[i], tenant, fingerprint) <==> IsOpenFor(before[i], tenant, fingerprint)
  }

  ghost predicate UndisturbedRun(env: Env, s: Sys, events: seq<Event>, tenant: TenantId, fingerprint: string) {
    events == [] ||
    (UndisturbedRun(env, s, events[..|events| - 1], tenant, fingerprint)
     && Undisturbed(env, RunAll(env, s, events[..|events| - 1]), events[|events| - 1], tenant, fingerprint))
  }

  lemma {:induction false} SameOpenIsFound(before: seq<IncidentRow>, after: seq<IncidentRow>, tenant: TenantId,
      fingerprint: string)
    requires SameOpen(before, after, tenant, fingerprint)
    ensures FindOpen(after, tenant, fingerprint) == FindOpen(before, tenant, fingerprint)
  {
    if before != [] {
      SameOpenIsFound(before[..|before| - 1], after[..|before| - 1], tenant, fingerprint);
    }
  }

  lemma RequestGathers(db: Db, r: Request, at: Time, tenant: TenantId, fingerprint: string)
    requires TablesOk(db) && SameOpen(db.incidents, Served(db, r, at).incidents, tenant, fingerprint)
    ensures Gathered(db, Served(db, r, at), tenant, fingerprint)
  {
    RequestKeepsTables(db, r, at);
    SameOpenIsFound(db.incidents, Served(db, r, at).incidents, tenant, fingerprint);
  }

  // Neither alerts nor incidents change.
  lemma NothingGathers(before: Db, after: Db, tenant: TenantId, fingerprint: string)
    requires after.alerts == before.alerts && after.incidents == before.incidents
    ensures Gathered(before, after, tenant, fingerprint)
  {
  }

  lemma StepGathers(env: Env, s: Sys, e: Event, tenant: TenantId, fingerprint: string)
    requires TablesOk(s.db) && GroupsFor(s.db, tenant) && Undisturbed(env, s, e, tenant, fingerprint)
    ensures GroupsFor(Next(env, s, e).db, tenant) && Gathered(s.db, Next(env, s, e).db, tenant, fingerprint)
  {
    hide TablesOk, Committed, Batch, EditRows;
    if Enabled(s, e) && e.Commit? {
      CommitGathers(env, s.db, Batch(s.stream, s.held[e.writer].ids, e.readings), tenant, fingerprint);
      CommitKeepsTables(env, s.db, Batch(s.stream, s.held[e.writer].ids, e.readings));
    } else if Enabled(s, e) && e.Request? {
      RequestGathers(s.db, e.request, e.at, tenant, fingerprint);
    } else {
      NothingGathers(s.db, Next(env, s, e).db, tenant, fingerprint);
    }
  }

  lemma GatheredComposes(a: Db, b: Db, c: Db, tenant: TenantId, fingerprint: string)
    requires Gathered(a, b, tenant, fingerprint) && Gathered(b, c, tenant, fingerprint)
    ensures Gathered(a, c, tenant, fingerprint)
  {
  }

  /** Over any run of the system in which no case of a fingerprint is closed or reopened
      by hand and no batch brings a new key of the tenant twice - with any crashes,
      redeliveries, edits, comments and changes of settings in between: exactly one
      incident is open for the fingerprint if any alert of it landed or one was open,
      it is the one that was open, and its count rose by exactly the alerts that landed. */
  lemma {:induction false} OneIncidentInAnyRun(env: Env, s: Sys, events: seq<Event>, tenant: TenantId,
      fingerprint: string)
    requires TablesOk(s.db) && DeliveryOk(env, s) && GroupsFor(s.db, tenant)
    requires UndisturbedRun(env, s, events, tenant, fingerprint)
    ensures var t := RunAll(env, s, events);
      && TablesOk(t.db) && GroupsFor(t.db, tenant)
      && Gathered(s.db, t.db, tenant, fingerprint)
      && AtMostOneOpen(t.db.incidents, tenant, fingerprint)
  {
    if events != [] {
      var front, last := events[..|events| - 1], events[|events| - 1];
      var mid := RunAll(env, s, front);
      OneIncidentInAnyRun(env, s, front, tenant, fingerprint);
      NothingIsLost(env, s, front);
      NothingIsLost(env, s, events);
      StepGathers(env, mid, last, tenant, fingerprint);
      GatheredComposes(s.db, mid.db, Next(env, mid, last).db, tenant, fingerprint);
    }
    NeverTwoOpen(RunAll(env, s, events).db.incidents, tenant, fingerprint);
  }

  // ---- one alert published twice ----------------------------------------------

  lemma CountOne(row: Row, tenant: TenantId, fingerprint: string)
    requires IsFor(tenant, fingerprint)(row)
    ensures CountFor([row], tenant, fingerprint) == 1
  {
    var p := IsFor(tenant, fingerprint);
    assert [row][..0] == [] && CountIf(p, []) == 0;
    assert CountIf(p, [row]) == CountIf(p, [row][..0]) + 1;
  }

  lemma CountTwo(one: Row, two: Row, tenant: TenantId, fingerprint: string)
    requires IsFor(tenant, fingerprint)(one) && IsFor(tenant, fingerprint)(two)
    ensures CountFor([one, two], tenant, fingerprint) == 2
  {
    CountOne(one, tenant, fingerprint);
    CountOne(two, tenant, fingerprint);
    CountIfAppend(IsFor(tenant, fingerprint), [one], [two]);
    assert [one] + [two] == [one, two];
  }

  // The two rows of an entry read twice.
  lemma TwoRows(env: Env, entry: Entry, batch: seq<Handled>)
    requires entry.Entry? && |batch| == 2 && batch[0].entry == entry && batch[1].entry == entry
    ensures RowsOf(env, batch) == [RowOf(env, batch[0]), RowOf(env, batch[1])]
  {
    assert batch[..1][..0] == [] && batch[..1][0] == batch[0];
    assert RowsOf(env, batch[..1]) == [RowOf(env, batch[0])];
  }

  // Both are fresh in an empty table.
  lemma TwoFresh(one: Row, two: Row)
    ensures Fresh(map[], [one, two]) == [one, two]
  {
    assert [one, two][..1] == [one] && [one][..0] == [];
    assert Fresh(map[], [one]) == [one];
  }

  // A timestamp that parses makes the same alert of the entry at every reading.
  lemma SameReading(env: Env, entry: Entry, h: Handled)
    requires entry.Entry? && entry.raw.timestamp.Some? && h.entry == entry
    ensures RowOf(env, h).alert == Parse(env.ops, entry.tenant, entry.raw, 0)
    ensures RowOf(env, h).alert.tenant == entry.tenant
  {
  }

  lemma TwoCopiesLand(env: Env, tenants: map<TenantId, TenantConfig>, entry: Entry, batch: seq<Handled>)
    requires entry.Entry? && entry.raw.timestamp.Some?
    requires entry.tenant in tenants && tenants[entry.tenant].windowMinutes > 0
    requires |batch| == 2 && batch[0].entry == entry && batch[1].entry == entry
    ensures var alert := Parse(env.ops, entry.tenant, entry.raw, 0);
      var after := Committed(env, Db(tenants, map[], [], map[], map[], map[]), batch);
      && after.alerts.Keys == {alert.Key()}
      && OpenCount(after.incidents, entry.tenant, alert.fingerprint) == 2
  {
    hide GroupAll, RowsOf, Parse, Fresh, CountIf;
    var db := Db(tenants, map[], [], map[], map[], map[]);
    var alert := Parse(env.ops, entry.tenant, entry.raw, 0);
    var one, two := RowOf(env, batch[0]), RowOf(env, batch[1]);
    TwoRows(env, entry, batch);
    SameReading(env, entry, batch[0]);
    SameReading(env, entry, batch[1]);
    TwoFresh(one, two);
    forall k ensures k in Committed(env, db, batch).alerts <==> k == alert.Key() {
      CommitStores(env, db, batch, k);
      if k == alert.Key() { assert RowsOf(env, batch)[0].Key() == k; }
    }
    InsertedIsOk(env, db, batch);
    GroupAllAdds(env, Inserted(env, db, batch), Landed(env, db, batch), entry.tenant, alert.fingerprint);
    CountIfOfSorted(IsFor(entry.tenant, alert.fingerprint), At, [one, two]);
    CountTwo(one, two, entry.tenant, alert.fingerprint);
  }

  lemma PublishAppends(env: Env, s: Sys, entries: seq<Entry>)
    ensures Next(env, s, Publish(entries)) == s.(stream := s.stream + entries)
  {
  }

  lemma CommitWrites(env: Env, s: Sys, c: Consumer, readings: seq<(Time, Time)>)
    requires c in s.held && !s.held[c].committed && |readings| == |s.held[c].ids|
    ensures Next(env, s, Commit(c, readings)).db == Committed(env, s.db, Batch(s.stream, s.held[c].ids, readings))
  {
  }

  lemma TwoAreRead(env: Env, s: Sys, entry: Entry)
    requires s.stream == [entry, entry] && s.cursor == 0 && s.held == map[]
    ensures var t := Next(env, s, Read(0, 2));
      t.stream == s.stream && t.db == s.db && t.held == map[0 := Held([0, 1], false)]
  {
    assert Range(0, 2) == [0, 1];
  }

  lemma TwiceRead(env: Env, tenants: map<TenantId, TenantConfig>, entry: Entry, now: Time) returns (batch: seq<Handled>)
    ensures |batch| == 2 && batch[0].entry == entry && batch[1].entry == entry
    ensures var s := Initial(tenants, now);
      Next(env, Next(env, Next(env, s, Publish([entry, entry])), Read(0, 2)), Commit(0, [(now, now), (now, now)])).db
        == Committed(env, s.db, batch)
  {
    hide Next, Committed;
    var s, readings := Initial(tenants, now), [(now, now), (now, now)];
    PublishAppends(env, s, [entry, entry]);
    assert s.stream + [entry, entry] == [entry, entry];
    var s1 := s.(stream := [entry, entry]);
    TwoAreRead(env, s1, entry);
    CommitWrites(env, Next(env, s1, Read(0, 2)), 0, readings);
    batch := Batch([entry, entry], [0, 1], readings);
  }

  /** An alert published twice and read in one batch: from an empty system, one alert is
      stored, and its one incident counts two. */
  lemma PublishedTwiceCountsTwo(env: Env, tenants: map<TenantId, TenantConfig>, entry: Entry, now: Time)
    requires entry.Entry? && entry.raw.timestamp.Some?
    requires entry.tenant in tenants && tenants[entry.tenant].windowMinutes > 0
    ensures var events := [Publish([entry, entry]), Read(0, 2), Commit(0, [(now, now), (now, now)])];
      var t := RunAll(env, Initial(tenants, now), events);
      var alert := Parse(env.ops, entry.tenant, entry.raw, 0);
      && t.db.alerts.Keys == {alert.Key()}
      && OpenCount(t.db.incidents, entry.tenant, alert.fingerprint) == 2
  {
    RunOfThree(env, Initial(tenants, now), Publish([entry, entry]), Read(0, 2), Commit(0, [(now, now), (now, now)]));
    var batch := TwiceRead(env, tenants, entry, now);
    TwoCopiesLand(env, tenants, entry, batch);
  }

  lemma RunOfThree(env: Env, s: Sys, a: Event, b: Event, c: Event)
    ensures RunAll(env, s, [a, b, c]) == Next(env, Next(env, Next(env, s, a), b), c)
  {
    assert [a, b, c][..2] == [a, b] && [a, b][..1] == [a] && [a][..0] == [];
    assert RunAll(env, s, [a]) == Next(env, s, a);
    assert RunAll(env, s, [a, b]) == Next(env, Next(env, s, a), b);
  }
}
