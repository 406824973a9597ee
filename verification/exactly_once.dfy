/** Counting: what one committed batch does to incident and entity counts. */
module ExactlyOnce {
  import opened Wrappers
  import opened Sorting
  import opened Model
  import opened Tables
  import opened Parser
  import opened EntityStore
  import opened Grouping
  import opened IngestConsumer
  import opened TableLaws

  // ---- the invariant of the tables --------------------------------------------

  ghost predicate LinksInRange(alerts: map<AlertKey, Stored>, incidents: seq<IncidentRow>) {
    forall k | k in alerts && alerts[k].incident.Some? ::
      alerts[k].incident.value < |incidents| && incidents[alerts[k].incident.value].tenant == k.tenant
  }

  ghost predicate TablesOk(db: Db) {
    && UniqueOpen(db.incidents)
    && Numbered(db.incidents, db.counters)
    && RecurrenceBackwards(db.incidents)
    && AllCoupled(db.incidents)
    && LinksInRange(db.alerts, db.incidents)
  }

  // The stored alerts linked to one incident, and those grouped alerts that list an entity.
  ghost function LinkedKeys(alerts: map<AlertKey, Stored>, i: nat): set<AlertKey> {
    set k | k in alerts && alerts[k].incident == Some(i)
  }

  ghost function ListingKeys(alerts: map<AlertKey, Stored>, e: EntityKey): set<AlertKey> {
    set k | k in alerts && alerts[k].incident.Some? && Names(alerts[k].alert.tenant, alerts[k].alert.related, e)
  }

  ghost predicate CountsCover(db: Db) {
    forall i: nat | i < |db.incidents| :: |LinkedKeys(db.alerts, i)| <= db.incidents[i].alertCount
  }

  // Each stored alert is counted once: by its incident, and by each entity it lists.
  ghost predicate IncidentsExact(db: Db) {
    forall i: nat | i < |db.incidents| :: |LinkedKeys(db.alerts, i)| == db.incidents[i].alertCount
  }

  // A stored alert is linked to an incident of its own fingerprint.
  ghost predicate LinksAgree(alerts: map<AlertKey, Stored>, incidents: seq<IncidentRow>) {
    forall k | k in alerts && alerts[k].incident.Some? ::
      && alerts[k].incident.value < |incidents|
      && incidents[alerts[k].incident.value].fingerprint == alerts[k].alert.fingerprint
  }

  ghost predicate EntitiesExact(db: Db) {
    forall e :: |ListingKeys(db.alerts, e)| == CountAt(db.entities, e)
  }

  // First and last seen with the earliest and the latest of some alerts.
  ghost predicate SeenBy(first: Time, last: Time, keys: set<AlertKey>) {
    && (forall k | k in keys :: first <= k.timestamp <= last)
    && (exists k :: k in keys && k.timestamp == first)
    && (exists k :: k in keys && k.timestamp == last)
  }

  ghost predicate EntityTimesExact(db: Db) {
    forall e | e in db.entities ::
      SeenBy(db.entities[e].firstSeen, db.entities[e].lastSeen, ListingKeys(db.alerts, e))
  }

  // An incident was first and last seen with the earliest and latest alert linked to it.
  ghost predicate IncidentTimesExact(db: Db) {
    forall i: nat | i < |db.incidents| ::
      SeenBy(db.incidents[i].clock.firstSeen, db.incidents[i].lastSeen, LinkedKeys(db.alerts, i))
  }

  // The alerts linked to an incident that one rule raised.
  ghost function RuleKeys(alerts: map<AlertKey, Stored>, i: nat, rule: int): set<AlertKey> {
    set k | k in alerts && alerts[k].incident == Some(i) && alerts[k].alert.ruleId == rule
  }

  ghost predicate RulesExact(db: Db) {
    forall i: nat, rule: int | i < |db.incidents| ::
      |RuleKeys(db.alerts, i, rule)| == CountOf(db.incidents[i].ruleSummary, Rule(rule))
  }

  // ---- linking one alert ------------------------------------------------------

  ghost function Relinked(alerts: map<AlertKey, Stored>, key: AlertKey, id: nat): map<AlertKey, Stored>
    requires key in alerts
  {
    alerts[key := alerts[key].(incident := Some(id))]
  }

  lemma RelinkCounts(alerts: map<AlertKey, Stored>, key: AlertKey, id: nat, i: nat)
    requires key in alerts
    ensures |LinkedKeys(Relinked(alerts, key, id), i)|
         <= |LinkedKeys(alerts, i)| + if i == id then 1 else 0
    ensures alerts[key].incident.None? ==>
      |LinkedKeys(Relinked(alerts, key, id), i)| == |LinkedKeys(alerts, i)| + if i == id then 1 else 0
  {
    var after := LinkedKeys(Relinked(alerts, key, id), i);
    if i == id {
      assert after == LinkedKeys(alerts, i) + {key};
    } else {
      assert after == LinkedKeys(alerts, i) - {key};
      if alerts[key].incident.None? { assert after == LinkedKeys(alerts, i); }
    }
  }

  lemma RelinkListing(alerts: map<AlertKey, Stored>, key: AlertKey, id: nat, e: EntityKey)
    requires key in alerts && alerts[key].incident.None?
    ensures key !in ListingKeys(alerts, e)
    ensures ListingKeys(Relinked(alerts, key, id), e) == ListingKeys(alerts, e)
              + if Names(alerts[key].alert.tenant, alerts[key].alert.related, e) then {key} else {}
  {
    var after := ListingKeys(Relinked(alerts, key, id), e);
    hide Names;
    var listed := Names(alerts[key].alert.tenant, alerts[key].alert.related, e);
    forall k ensures k in after <==> k in ListingKeys(alerts, e) || (k == key && listed) {
    }
  }

  lemma UnlinkedBeyond(alerts: map<AlertKey, Stored>, incidents: seq<IncidentRow>)
    requires LinksInRange(alerts, incidents)
    ensures LinkedKeys(alerts, |incidents|) == {}
  {
  }

  // ---- grouping one row -------------------------------------------------------

  lemma PlaceCounts(db: Db, a: Alert, config: TenantConfig, now: Time, size: Sizer, i: nat)
    requires UniqueOpen(db.incidents)
    requires var p := Place(db.incidents, db.counters, a, config, now, size); i < |p.incidents|
    ensures var p := Place(db.incidents, db.counters, a, config, now, size);
      && p.incidents[i].alertCount == (if i < |db.incidents| then db.incidents[i].alertCount else 0)
                                      + (if i == p.id then 1 else 0)
      && p.incidents[p.id].tenant == a.tenant
      && (i < |db.incidents| ==> p.incidents[i].tenant == db.incidents[i].tenant)
  {
    PlaceKeepsUniqueOpen(db.incidents, db.counters, a, config, now, size);
  }

  /** Grouping one stored row keeps the invariant, and no count falls behind. */
  lemma GroupOneKeepsTables(env: Env, db: Db, row: Row)
    requires TablesOk(db) && row.Key() in db.alerts
    ensures TablesOk(GroupOne(env, db, row))
    ensures GroupOne(env, db, row).alerts.Keys == db.alerts.Keys
    ensures GroupOne(env, db, row).tenants == db.tenants
    ensures CountsCover(db) ==> CountsCover(GroupOne(env, db, row))
  {
    hide Place;
    if GroupsFor(db, row.alert.tenant) {
      var a, config := row.alert, db.tenants[row.alert.tenant];
      var p := Place(db.incidents, db.counters, a, config, row.groupedAt, env.size);
      PlaceKeepsUniqueOpen(db.incidents, db.counters, a, config, row.groupedAt, env.size);
      PlaceKeepsNumbered(db.incidents, db.counters, a, config, row.groupedAt, env.size);
      PlaceKeepsRecurrence(db.incidents, db.counters, a, config, row.groupedAt, env.size);
      PlaceKeepsCoupled(db.incidents, db.counters, a, config, row.groupedAt, env.size);
      GroupedLinksInRange(env, db, row);
      if CountsCover(db) { GroupedCountsCover(env, db, row); }
    }
  }

  lemma GroupedLinksInRange(env: Env, db: Db, row: Row)
    requires TablesOk(db) && row.Key() in db.alerts && GroupsFor(db, row.alert.tenant)
    ensures var after := GroupOne(env, db, row); LinksInRange(after.alerts, after.incidents)
  {
    var after := GroupOne(env, db, row);
    var config := db.tenants[row.alert.tenant];
    forall k | k in after.alerts && after.alerts[k].incident.Some?
      ensures after.alerts[k].incident.value < |after.incidents|
      ensures after.incidents[after.alerts[k].incident.value].tenant == k.tenant
    {
      PlaceKeepsUniqueOpen(db.incidents, db.counters, row.alert, config, row.groupedAt, env.size);
      if k != row.Key() {
        PlaceCounts(db, row.alert, config, row.groupedAt, env.size, db.alerts[k].incident.value);
      }
    }
  }

  lemma GroupedCountsCover(env: Env, db: Db, row: Row)
    requires TablesOk(db) && row.Key() in db.alerts && GroupsFor(db, row.alert.tenant) && CountsCover(db)
    ensures CountsCover(GroupOne(env, db, row))
  {
    var after := GroupOne(env, db, row);
    var config := db.tenants[row.alert.tenant];
    var p := Place(db.incidents, db.counters, row.alert, config, row.groupedAt, env.size);
    assert after.alerts == Relinked(db.alerts, row.Key(), p.id);
    forall i: nat | i < |after.incidents| ensures |LinkedKeys(after.alerts, i)| <= after.incidents[i].alertCount {
      PlaceCounts(db, row.alert, config, row.groupedAt, env.size, i);
      RelinkCounts(db.alerts, row.Key(), p.id, i);
      UnlinkedBeyond(db.alerts, db.incidents);
    }
  }

  // A stored, not yet grouped row whose lists hold no duplicates.
  ghost predicate Ready(alerts: map<AlertKey, Stored>, row: Row) {
    && row.Key() in alerts
    && alerts[row.Key()] == Stored(row.alert, None)
    && forall kind | kind in row.alert.related :: Distinct(row.alert.related[kind])
  }

  lemma GroupedIncidentsExact(env: Env, db: Db, row: Row)
    requires TablesOk(db) && Ready(db.alerts, row) && GroupsFor(db, row.alert.tenant) && IncidentsExact(db)
    ensures IncidentsExact(GroupOne(env, db, row))
  {
    var after := GroupOne(env, db, row);
    var a, config := row.alert, db.tenants[row.alert.tenant];
    var p := Place(db.incidents, db.counters, a, config, row.groupedAt, env.size);
    assert after.alerts == Relinked(db.alerts, row.Key(), p.id);
    forall i: nat | i < |after.incidents| ensures |LinkedKeys(after.alerts, i)| == after.incidents[i].alertCount {
      PlaceCounts(db, a, config, row.groupedAt, env.size, i);
      RelinkCounts(db.alerts, row.Key(), p.id, i);
      UnlinkedBeyond(db.alerts, db.incidents);
    }
  }

  lemma GroupedEntitiesExact(env: Env, db: Db, row: Row)
    requires TablesOk(db) && Ready(db.alerts, row) && GroupsFor(db, row.alert.tenant) && EntitiesExact(db)
    ensures EntitiesExact(GroupOne(env, db, row))
  {
    hide Place, UpsertAll, Listed, ListingKeys, Names;
    var after, a := GroupOne(env, db, row), row.alert;
    var p := Place(db.incidents, db.counters, a, db.tenants[a.tenant], row.groupedAt, env.size);
    assert after.alerts == Relinked(db.alerts, row.Key(), p.id);
    ListedIsDistinct(a.tenant, a.related);
    forall e ensures |ListingKeys(after.alerts, e)| == CountAt(after.entities, e) {
      RelinkListing(db.alerts, row.Key(), p.id, e);
      UpsertCounts(db.entities, Listed(a.tenant, a.related), a.timestamp, e);
      OccurrencesInDistinct(Listed(a.tenant, a.related), e);
      ListedExactly(a.tenant, a.related, e);
    }
  }

  // One more alert among those seen.
  lemma OneSeen(key: AlertKey)
    ensures SeenBy(key.timestamp, key.timestamp, {key})
  {
    assert key in {key};
  }

  lemma OneMoreSeen(first: Time, last: Time, keys: set<AlertKey>, key: AlertKey)
    requires SeenBy(first, last, keys)
    ensures SeenBy(Min(first, key.timestamp), Max(last, key.timestamp), keys + {key})
  {
    var early :| early in keys && early.timestamp == first;
    var late :| late in keys && late.timestamp == last;
    assert early in keys + {key} && late in keys + {key} && key in keys + {key};
  }

  lemma GroupedTimesExact(env: Env, db: Db, row: Row)
    requires TablesOk(db) && Ready(db.alerts, row) && GroupsFor(db, row.alert.tenant)
    requires EntitiesExact(db) && EntityTimesExact(db)
    ensures EntityTimesExact(GroupOne(env, db, row))
  {
    hide Place, UpsertAll, Listed, ListingKeys, Names, TablesOk, SeenBy;
    var after, a := GroupOne(env, db, row), row.alert;
    var listed := Listed(a.tenant, a.related);
    var p := Place(db.incidents, db.counters, a, db.tenants[a.tenant], row.groupedAt, env.size);
    assert after.alerts == Relinked(db.alerts, row.Key(), p.id);
    forall e | e in after.entities
      ensures SeenBy(after.entities[e].firstSeen, after.entities[e].lastSeen, ListingKeys(after.alerts, e))
    {
      RelinkListing(db.alerts, row.Key(), p.id, e);
      UpsertCounts(db.entities, listed, a.timestamp, e);
      ListedExactly(a.tenant, a.related, e);
      ListedOnceTimes(db.entities, listed, row.Key(), e, ListingKeys(db.alerts, e));
    }
  }

  lemma ListedOnceTimes(entities: map<EntityKey, EntityRow>, listed: seq<EntityKey>, key: AlertKey, e: EntityKey,
      keys: set<AlertKey>)
    requires e in UpsertAll(entities, listed, key.timestamp)
    requires if e in entities then SeenBy(entities[e].firstSeen, entities[e].lastSeen, keys) else keys == {}
    ensures var row := UpsertAll(entities, listed, key.timestamp)[e];
      SeenBy(row.firstSeen, row.lastSeen, keys + if e in listed then {key} else {})
  {
    UpsertWidens(entities, listed, key.timestamp, e);
    UpsertCounts(entities, listed, key.timestamp, e);
    if e in listed {
      if e in entities {
        OneMoreSeen(entities[e].firstSeen, entities[e].lastSeen, keys, key);
      } else {
        assert key in keys + {key};
      }
    } else {
      assert keys + {} == keys;
    }
  }

  // What placing an alert does to an incident's own times and rule counts.
  lemma PlaceWidens(db: Db, a: Alert, config: TenantConfig, now: Time, size: Sizer, i: nat, rule: int)
    requires UniqueOpen(db.incidents)
    requires i < |Place(db.incidents, db.counters, a, config, now, size).incidents|
    ensures var p := Place(db.incidents, db.counters, a, config, now, size);
      var row := p.incidents[i];
      if i >= |db.incidents| then
        && i == p.id
        && row.clock.firstSeen == a.timestamp == row.lastSeen
        && CountOf(row.ruleSummary, Rule(rule)) == if a.ruleId == rule then 1 else 0
      else if i == p.id then
        && row.clock.firstSeen == Min(db.incidents[i].clock.firstSeen, a.timestamp)
        && row.lastSeen == Max(db.incidents[i].lastSeen, a.timestamp)
        && CountOf(row.ruleSummary, Rule(rule))
             == CountOf(db.incidents[i].ruleSummary, Rule(rule)) + if a.ruleId == rule then 1 else 0
      else row == db.incidents[i]
  {
  }

  lemma RelinkLinked(alerts: map<AlertKey, Stored>, key: AlertKey, id: nat, i: nat, rule: int)
    requires key in alerts && alerts[key].incident.None?
    ensures key !in LinkedKeys(alerts, i) && key !in RuleKeys(alerts, i, rule)
    ensures LinkedKeys(Relinked(alerts, key, id), i) == LinkedKeys(alerts, i) + if i == id then {key} else {}
    ensures RuleKeys(Relinked(alerts, key, id), i, rule)
         == RuleKeys(alerts, i, rule) + if i == id && alerts[key].alert.ruleId == rule then {key} else {}
  {
  }

  lemma GroupedIncidentTimes(env: Env, db: Db, row: Row)
    requires TablesOk(db) && Ready(db.alerts, row) && GroupsFor(db, row.alert.tenant) && IncidentTimesExact(db)
    ensures IncidentTimesExact(GroupOne(env, db, row))
  {
    var after := GroupOne(env, db, row);
    forall i: nat | i < |after.incidents|
      ensures SeenBy(after.incidents[i].clock.firstSeen, after.incidents[i].lastSeen, LinkedKeys(after.alerts, i))
    {
      TimesAfter(env, db, row, i);
    }
  }

  lemma TimesAfter(env: Env, db: Db, row: Row, i: nat)
    requires UniqueOpen(db.incidents) && LinksInRange(db.alerts, db.incidents) && Ready(db.alerts, row)
    requires GroupsFor(db, row.alert.tenant) && IncidentTimesExact(db)
    requires i < |GroupOne(env, db, row).incidents|
    ensures var after := GroupOne(env, db, row);
      SeenBy(after.incidents[i].clock.firstSeen, after.incidents[i].lastSeen, LinkedKeys(after.alerts, i))
  {
    hide Place, UpsertAll, SeenBy;
    var after, a, config := GroupOne(env, db, row), row.alert, db.tenants[row.alert.tenant];
    var p := Place(db.incidents, db.counters, a, config, row.groupedAt, env.size);
    assert after.alerts == Relinked(db.alerts, row.Key(), p.id);
    PlaceWidens(db, a, config, row.groupedAt, env.size, i, 0);
    RelinkLinked(db.alerts, row.Key(), p.id, i, 0);
    if i >= |db.incidents| {
      assert LinkedKeys(db.alerts, i) == {};
      OneSeen(row.Key());
      assert LinkedKeys(after.alerts, i) == {row.Key()};
    } else if i == p.id {
      OneMoreSeen(db.incidents[i].clock.firstSeen, db.incidents[i].lastSeen, LinkedKeys(db.alerts, i), row.Key());
    } else {
      assert LinkedKeys(after.alerts, i) == LinkedKeys(db.alerts, i);
    }
  }

  lemma GroupedRulesExact(env: Env, db: Db, row: Row)
    requires TablesOk(db) && Ready(db.alerts, row) && GroupsFor(db, row.alert.tenant) && RulesExact(db)
    ensures RulesExact(GroupOne(env, db, row))
  {
    var after := GroupOne(env, db, row);
    forall i: nat, rule: int | i < |after.incidents|
      ensures |RuleKeys(after.alerts, i, rule)| == CountOf(after.incidents[i].ruleSummary, Rule(rule))
    {
      RuleAfter(env, db, row, i, rule);
    }
  }

  lemma RuleAfter(env: Env, db: Db, row: Row, i: nat, rule: int)
    requires UniqueOpen(db.incidents) && LinksInRange(db.alerts, db.incidents) && Ready(db.alerts, row)
    requires GroupsFor(db, row.alert.tenant) && RulesExact(db)
    requires i < |GroupOne(env, db, row).incidents|
    ensures var after := GroupOne(env, db, row);
      |RuleKeys(after.alerts, i, rule)| == CountOf(after.incidents[i].ruleSummary, Rule(rule))
  {
    hide Place, UpsertAll, CountOf;
    var after, a, config := GroupOne(env, db, row), row.alert, db.tenants[row.alert.tenant];
    var p := Place(db.incidents, db.counters, a, config, row.groupedAt, env.size);
    assert after.alerts == Relinked(db.alerts, row.Key(), p.id);
    PlaceWidens(db, a, config, row.groupedAt, env.size, i, rule);
    RelinkLinked(db.alerts, row.Key(), p.id, i, rule);
    if i >= |db.incidents| { assert RuleKeys(db.alerts, i, rule) == {}; }
  }

  lemma GroupedLinksAgree(env: Env, db: Db, row: Row)
    requires TablesOk(db) && Ready(db.alerts, row) && GroupsFor(db, row.alert.tenant)
    requires LinksAgree(db.alerts, db.incidents)
    ensures LinksAgree(GroupOne(env, db, row).alerts, GroupOne(env, db, row).incidents)
  {
    hide Place;
    var config := db.tenants[row.alert.tenant];
    PlaceKeepsUniqueOpen(db.incidents, db.counters, row.alert, config, row.groupedAt, env.size);
    var p := Place(db.incidents, db.counters, row.alert, config, row.groupedAt, env.size);
    forall i | 0 <= i < |db.incidents| ensures p.incidents[i].fingerprint == db.incidents[i].fingerprint {
    }
  }

  // ---- grouping a batch -------------------------------------------------------

  lemma {:induction false} GroupAllKeepsTables(env: Env, db: Db, rows: seq<Row>)
    requires TablesOk(db) && forall r | r in rows :: r.Key() in db.alerts
    ensures var after := GroupAll(env, db, rows);
      && TablesOk(after)
      && after.alerts.Keys == db.alerts.Keys
      && after.tenants == db.tenants
      && (CountsCover(db) ==> CountsCover(after))
  {
    if rows != [] {
      GroupAllKeepsTables(env, db, rows[..|rows| - 1]);
      GroupOneKeepsTables(env, GroupAll(env, db, rows[..|rows| - 1]), rows[|rows| - 1]);
    }
  }

  lemma GroupOneKeepsOthersReady(env: Env, db: Db, row: Row, other: Row)
    requires row.Key() in db.alerts && Ready(db.alerts, other) && other.Key() != row.Key()
    ensures Ready(GroupOne(env, db, row).alerts, other)
  {
  }

  lemma {:induction false} GroupAllKeepsReady(env: Env, db: Db, rows: seq<Row>, other: Row)
    requires TablesOk(db) && forall r | r in rows :: r.Key() in db.alerts && r.Key() != other.Key()
    requires Ready(db.alerts, other)
    ensures Ready(GroupAll(env, db, rows).alerts, other)
  {
    if rows != [] {
      var front, last := rows[..|rows| - 1], rows[|rows| - 1];
      GroupAllKeepsReady(env, db, front, other);
      GroupAllKeepsTables(env, db, front);
      GroupOneKeepsOthersReady(env, GroupAll(env, db, front), last, other);
    }
  }

  // Every stored alert is counted exactly once, where it belongs.
  // ---- the links of each incident ---------------------------------------------

  // Some stored alert linked to the incident names the entity.
  ghost predicate NamedIn(alerts: map<AlertKey, Stored>, i: nat, e: EntityKey) {
    exists k :: k in LinkedKeys(alerts, i) && Names(alerts[k].alert.tenant, alerts[k].alert.related, e)
  }

  // An incident is linked to exactly the entities that its alerts name.
  ghost predicate EntityLinksExact(db: Db) {
    forall i: nat, e :: (i, e) in db.links <==> NamedIn(db.alerts, i, e)
  }

  lemma RelinkNames(alerts: map<AlertKey, Stored>, key: AlertKey, id: nat, i: nat, e: EntityKey)
    requires key in alerts && alerts[key].incident.None?
    ensures NamedIn(Relinked(alerts, key, id), i, e) <==>
      NamedIn(alerts, i, e) || (i == id && Names(alerts[key].alert.tenant, alerts[key].alert.related, e))
  {
    hide Names;
    var after := Relinked(alerts, key, id);
    if NamedIn(alerts, i, e) {
      var k :| k in LinkedKeys(alerts, i) && Names(alerts[k].alert.tenant, alerts[k].alert.related, e);
      assert k in LinkedKeys(after, i) && after[k].alert == alerts[k].alert;
    }
    if i == id && Names(alerts[key].alert.tenant, alerts[key].alert.related, e) {
      assert key in LinkedKeys(after, i) && after[key].alert == alerts[key].alert;
    }
    if NamedIn(after, i, e) {
      var k :| k in LinkedKeys(after, i) && Names(after[k].alert.tenant, after[k].alert.related, e);
      if k != key { assert k in LinkedKeys(alerts, i); }
    }
  }

  lemma GroupedEntityLinks(env: Env, db: Db, row: Row)
    requires Ready(db.alerts, row) && GroupsFor(db, row.alert.tenant) && EntityLinksExact(db)
    ensures EntityLinksExact(GroupOne(env, db, row))
  {
    hide Place, UpsertAll, LinkAll, Listed, Names, NamedIn;
    var after, a := GroupOne(env, db, row), row.alert;
    var p := Place(db.incidents, db.counters, a, db.tenants[a.tenant], row.groupedAt, env.size);
    assert after.alerts == Relinked(db.alerts, row.Key(), p.id);
    forall i: nat, e ensures (i, e) in after.links <==> NamedIn(after.alerts, i, e) {
      RelinkNames(db.alerts, row.Key(), p.id, i, e);
      LinkAllHolds(db.links, p.id, Listed(a.tenant, a.related), a.primary, (i, e));
      ListedExactly(a.tenant, a.related, e);
    }
  }

  /** One grouped alert: its incident becomes linked to what it names, as the source if that
      is its primary entity, and every link there was keeps its role. */
  lemma GroupedAlertLinks(env: Env, db: Db, row: Row, i: nat, e: EntityKey)
    requires row.Key() in db.alerts && GroupsFor(db, row.alert.tenant)
    ensures var after := GroupOne(env, db, row);
      var new_ := after.alerts[row.Key()].incident == Some(i) && Names(row.alert.tenant, row.alert.related, e);
      && ((i, e) in after.links <==> (i, e) in db.links || new_)
      && ((i, e) in db.links ==> after.links[(i, e)] == db.links[(i, e)])
      && (new_ && (i, e) !in db.links ==>
            after.links[(i, e)] == if e.value == row.alert.primary then Source else Observed)
  {
    hide Place, UpsertAll, LinkAll, Listed, Names;
    var a := row.alert;
    var p := Place(db.incidents, db.counters, a, db.tenants[a.tenant], row.groupedAt, env.size);
    LinkAllHolds(db.links, p.id, Listed(a.tenant, a.related), a.primary, (i, e));
    ListedExactly(a.tenant, a.related, e);
  }

  ghost predicate Exact(db: Db) {
    && IncidentsExact(db) && IncidentTimesExact(db) && RulesExact(db)
    && EntitiesExact(db) && EntityTimesExact(db)
    && LinksAgree(db.alerts, db.incidents) && EntityLinksExact(db)
  }

  // How many rows of a batch carry one key.
  function HasKey(k: AlertKey): Row -> bool { (row: Row) => row.Key() == k }

  function KeyCount(rows: seq<Row>, k: AlertKey): nat { CountIf(HasKey(k), rows) }

  // No key of a grouped tenant is carried by two of the rows.
  ghost predicate GroupsEachOnce(db: Db, rows: seq<Row>) {
    forall k: AlertKey | GroupsFor(db, k.tenant) :: KeyCount(rows, k) <= 1
  }

  lemma FrontGroupsEachOnce(db: Db, rows: seq<Row>)
    requires rows != [] && GroupsEachOnce(db, rows)
    ensures var front, last := rows[..|rows| - 1], rows[|rows| - 1];
      && GroupsEachOnce(db, front)
      && (GroupsFor(db, last.alert.tenant) ==> forall r | r in front :: r.Key() != last.Key())
  {
    var front, last := rows[..|rows| - 1], rows[|rows| - 1];
    forall k: AlertKey | GroupsFor(db, k.tenant) ensures KeyCount(front, k) <= 1 {
      assert KeyCount(rows, k) <= 1;
    }
    if GroupsFor(db, last.alert.tenant) {
      assert KeyCount(rows, last.Key()) <= 1;
      CountIfNone(HasKey(last.Key()), front);
      forall r | r in front ensures r.Key() != last.Key() {
        assert !HasKey(last.Key())(r);
      }
    }
  }

  /** Grouping a ready row counts it once, everywhere it belongs and nowhere else. */
  lemma GroupOneIsExact(env: Env, db: Db, row: Row)
    requires TablesOk(db) && Ready(db.alerts, row) && GroupsFor(db, row.alert.tenant) && Exact(db)
    ensures Exact(GroupOne(env, db, row))
  {
    GroupedIncidentsExact(env, db, row);
    GroupedIncidentTimes(env, db, row);
    GroupedRulesExact(env, db, row);
    GroupedEntitiesExact(env, db, row);
    GroupedTimesExact(env, db, row);
    GroupedLinksAgree(env, db, row);
    GroupedEntityLinks(env, db, row);
  }

  lemma {:induction false} GroupAllIsExact(env: Env, db: Db, rows: seq<Row>)
    requires TablesOk(db) && GroupsEachOnce(db, rows)
    requires forall r | r in rows :: r.Key() in db.alerts && (GroupsFor(db, r.alert.tenant) ==> Ready(db.alerts, r))
    requires Exact(db)
    ensures Exact(GroupAll(env, db, rows))
  {
    if rows != [] {
      var front, last := rows[..|rows| - 1], rows[|rows| - 1];
      FrontGroupsEachOnce(db, rows);
      GroupAllIsExact(env, db, front);
      GroupAllKeepsTables(env, db, front);
      if GroupsFor(db, last.alert.tenant) {
        GroupAllKeepsReady(env, db, front, last);
        GroupOneIsExact(env, GroupAll(env, db, front), last);
      }
    }
  }

  // ---- one committed batch ----------------------------------------------------

  // No key of a grouped tenant comes twice in the batch, unless it is stored already.
  ghost predicate CleanBatch(env: Env, db: Db, batch: seq<Handled>) {
    forall k: AlertKey | GroupsFor(db, k.tenant) && k !in db.alerts :: KeyCount(RowsOf(env, batch), k) <= 1
  }

  lemma {:induction false} FreshKeyCount(alerts: map<AlertKey, Stored>, rows: seq<Row>, k: AlertKey)
    ensures KeyCount(Fresh(alerts, rows), k) == if k in alerts then 0 else KeyCount(rows, k)
  {
    if rows != [] {
      var front, last := rows[..|rows| - 1], rows[|rows| - 1];
      FreshKeyCount(alerts, front, k);
      CountIfAppend(HasKey(k), Fresh(alerts, front), [last]);
    }
  }

  // What is grouped of a clean batch is each key once, and of any other some key twice.
  lemma LandedKeyCount(alerts: map<AlertKey, Stored>, rows: seq<Row>, k: AlertKey)
    ensures KeyCount(SortBy(At, Fresh(alerts, rows)), k) == if k in alerts then 0 else KeyCount(rows, k)
  {
    FreshKeyCount(alerts, rows, k);
    CountIfOfSorted(HasKey(k), At, Fresh(alerts, rows));
  }

  lemma {:induction false} InsertLinksNothing(alerts: map<AlertKey, Stored>, rows: seq<Row>)
    ensures forall k | k in InsertAll(alerts, rows) && k !in alerts :: InsertAll(alerts, rows)[k].incident.None?
    ensures forall i: nat :: LinkedKeys(InsertAll(alerts, rows), i) == LinkedKeys(alerts, i)
    ensures forall e :: ListingKeys(InsertAll(alerts, rows), e) == ListingKeys(alerts, e)
    ensures forall i: nat, rule: int :: RuleKeys(InsertAll(alerts, rows), i, rule) == RuleKeys(alerts, i, rule)
  {
    FreshLand(alerts, rows);
    InsertedUnlinked(alerts, rows);
  }

  lemma {:induction false} InsertedUnlinked(alerts: map<AlertKey, Stored>, rows: seq<Row>)
    ensures forall k | k in InsertAll(alerts, rows) && k !in alerts :: InsertAll(alerts, rows)[k].incident.None?
  {
    if rows != [] {
      InsertedUnlinked(alerts, rows[..|rows| - 1]);
    }
  }

  // The first stage: nothing is linked, and every row to be grouped is stored.
  lemma InsertedIsOk(env: Env, db: Db, batch: seq<Handled>)
    requires TablesOk(db)
    ensures var inserted := Inserted(env, db, batch);
      && TablesOk(inserted)
      && (CountsCover(db) ==> CountsCover(inserted))
      && (forall i: nat :: LinkedKeys(inserted.alerts, i) == LinkedKeys(db.alerts, i))
      && (forall r | r in Landed(env, db, batch) :: r.Key() in inserted.alerts)
  {
    hide InsertAll, Fresh, LinkedKeys;
    var rows, inserted := RowsOf(env, batch), Inserted(env, db, batch);
    FreshLand(db.alerts, rows);
    InsertLinksNothing(db.alerts, rows);
    assert LinksInRange(inserted.alerts, inserted.incidents);
    SortKeepsElements(At, Fresh(db.alerts, rows));
    Positions(Fresh(db.alerts, rows), Landed(env, db, batch));
    forall i: nat | i < |inserted.incidents| && CountsCover(db)
      ensures |LinkedKeys(inserted.alerts, i)| <= inserted.incidents[i].alertCount
    {
      assert LinkedKeys(inserted.alerts, i) == LinkedKeys(db.alerts, i);
    }
  }

  /** Any committed batch, repeats or not, keeps the invariant of the tables, and every
      incident's count stays at least the number of stored alerts linked to it. */
  lemma CommitKeepsTables(env: Env, db: Db, batch: seq<Handled>)
    requires TablesOk(db)
    ensures TablesOk(Committed(env, db, batch))
    ensures CountsCover(db) ==> CountsCover(Committed(env, db, batch))
    ensures Committed(env, db, batch).tenants == db.tenants
    ensures Committed(env, db, batch).alerts.Keys == Inserted(env, db, batch).alerts.Keys
  {
    InsertedIsOk(env, db, batch);
    GroupAllKeepsTables(env, Inserted(env, db, batch), Landed(env, db, batch));
  }

  /** Exactly the keys of the batch are stored besides those that were. */
  lemma CommitStores(env: Env, db: Db, batch: seq<Handled>, k: AlertKey)
    requires TablesOk(db)
    ensures k in Committed(env, db, batch).alerts <==>
      k in db.alerts || exists i | 0 <= i < |RowsOf(env, batch)| :: RowsOf(env, batch)[i].Key() == k
  {
    CommitKeepsTables(env, db, batch);
    FreshLand(db.alerts, RowsOf(env, batch));
    assert k in Committed(env, db, batch).alerts <==> k in Inserted(env, db, batch).alerts;
  }

  // The row that lands first is the one stored.
  lemma {:induction false} OnlyRowIsStored(alerts: map<AlertKey, Stored>, rows: seq<Row>, r: Row)
    requires r in Fresh(alerts, rows) && KeyCount(rows, r.Key()) <= 1
    ensures r.Key() in InsertAll(alerts, rows) && InsertAll(alerts, rows)[r.Key()] == Stored(r.alert, None)
  {
    var front, last := rows[..|rows| - 1], rows[|rows| - 1];
    FreshLand(alerts, front);
    CountIfNone(HasKey(r.Key()), front);
    if r in Fresh(alerts, front) {
      assert HasKey(r.Key())(r);
      OnlyRowIsStored(alerts, front, r);
    } else {
      forall i | 0 <= i < |front| ensures front[i].Key() != r.Key() {
        assert !HasKey(r.Key())(front[i]);
      }
    }
  }

  lemma {:induction false} RowsAreDistinctLists(env: Env, batch: seq<Handled>)
    ensures forall r | r in RowsOf(env, batch) ::
      forall kind | kind in r.alert.related :: Distinct(r.alert.related[kind])
  {
    if batch != [] {
      RowsAreDistinctLists(env, batch[..|batch| - 1]);
      var last := batch[|batch| - 1];
      if last.entry.Entry? {
        RelatedIsDistinct(env.ops, last.entry.tenant, last.entry.raw, last.parsedAt);
      }
    }
  }

  lemma LandedAreReady(env: Env, db: Db, batch: seq<Handled>)
    requires CleanBatch(env, db, batch)
    ensures forall r | r in Landed(env, db, batch) && GroupsFor(db, r.alert.tenant) ::
      Ready(Inserted(env, db, batch).alerts, r)
  {
    var rows := RowsOf(env, batch);
    var fresh_ := Fresh(db.alerts, rows);
    FreshLand(db.alerts, rows);
    RowsAreDistinctLists(env, batch);
    SortKeepsElements(At, fresh_);
    Positions(fresh_, Landed(env, db, batch));
    forall r | r in fresh_ && GroupsFor(db, r.alert.tenant) ensures Ready(InsertAll(db.alerts, rows), r) {
      assert KeyCount(rows, r.Key()) <= 1;
      OnlyRowIsStored(db.alerts, rows, r);
    }
  }

  lemma LandedOnceEach(env: Env, db: Db, batch: seq<Handled>)
    requires CleanBatch(env, db, batch)
    ensures GroupsEachOnce(Inserted(env, db, batch), Landed(env, db, batch))
  {
    forall k: AlertKey | GroupsFor(db, k.tenant) ensures KeyCount(Landed(env, db, batch), k) <= 1 {
      LandedKeyCount(db.alerts, RowsOf(env, batch), k);
    }
  }

  lemma InsertedIsExact(env: Env, db: Db, batch: seq<Handled>)
    requires TablesOk(db) && Exact(db)
    ensures Exact(Inserted(env, db, batch))
  {
    InsertedIsOk(env, db, batch);
    InsertLinksNothing(db.alerts, RowsOf(env, batch));
    FreshLand(db.alerts, RowsOf(env, batch));
  }

  lemma CleanCommitIsExact(env: Env, db: Db, batch: seq<Handled>)
    requires TablesOk(db) && CleanBatch(env, db, batch) && Exact(db)
    ensures Exact(Committed(env, db, batch))
  {
    hide TablesOk, Exact, GroupAll, Landed;
    InsertedIsOk(env, db, batch);
    InsertedIsExact(env, db, batch);
    LandedAreReady(env, db, batch);
    LandedOnceEach(env, db, batch);
    GroupAllIsExact(env, Inserted(env, db, batch), Landed(env, db, batch));
  }

  // ---- every alert of a grouped tenant is linked ------------------------------

  ghost predicate AllLinked(alerts: map<AlertKey, Stored>, tenant: TenantId) {
    forall k | k in alerts && k.tenant == tenant :: alerts[k].incident.Some?
  }

  lemma GroupOneLinks(env: Env, db: Db, row: Row, k: AlertKey)
    requires k in db.alerts && (db.alerts[k].incident.Some? || (row.Key() == k && GroupsFor(db, k.tenant)))
    ensures k in GroupOne(env, db, row).alerts && GroupOne(env, db, row).alerts[k].incident.Some?
  {
  }

  lemma {:induction false} GroupAllKeepsLinked(env: Env, db: Db, rows: seq<Row>, k: AlertKey)
    requires k in db.alerts && db.alerts[k].incident.Some?
    ensures k in GroupAll(env, db, rows).alerts && GroupAll(env, db, rows).alerts[k].incident.Some?
  {
    if rows != [] {
      GroupAllKeepsLinked(env, db, rows[..|rows| - 1], k);
      GroupOneLinks(env, GroupAll(env, db, rows[..|rows| - 1]), rows[|rows| - 1], k);
    }
  }

  lemma {:induction false} GroupAllKeepsKeys(env: Env, db: Db, rows: seq<Row>)
    ensures GroupAll(env, db, rows).tenants == db.tenants
    ensures GroupAll(env, db, rows).alerts.Keys == db.alerts.Keys
  {
    if rows != [] {
      GroupAllKeepsKeys(env, db, rows[..|rows| - 1]);
    }
  }

  lemma {:induction false} GroupAllLinks(env: Env, db: Db, rows: seq<Row>, i: nat, k: AlertKey)
    requires i < |rows| && rows[i].Key() == k && k in db.alerts && GroupsFor(db, k.tenant)
    ensures k in GroupAll(env, db, rows).alerts && GroupAll(env, db, rows).alerts[k].incident.Some?
  {
    var front, last := rows[..|rows| - 1], rows[|rows| - 1];
    GroupAllKeepsKeys(env, db, front);
    if i < |front| {
      GroupAllLinks(env, db, front, i, k);
    }
    GroupOneLinks(env, GroupAll(env, db, front), last, k);
  }

  lemma {:induction false} NewKeysAreFresh(alerts: map<AlertKey, Stored>, rows: seq<Row>, k: AlertKey)
    requires k in InsertAll(alerts, rows) && k !in alerts
    ensures exists r :: r in Fresh(alerts, rows) && r.Key() == k
  {
    var front, last := rows[..|rows| - 1], rows[|rows| - 1];
    if last.Key() == k {
      assert last in Fresh(alerts, rows);
    } else {
      NewKeysAreFresh(alerts, front, k);
      var r :| r in Fresh(alerts, front) && r.Key() == k;
      assert r in Fresh(alerts, rows);
    }
  }

  lemma NewKeysLand(alerts: map<AlertKey, Stored>, rows: seq<Row>, k: AlertKey) returns (i: nat)
    requires k in InsertAll(alerts, rows) && k !in alerts
    ensures var landed := SortBy(At, Fresh(alerts, rows)); i < |landed| && landed[i].Key() == k
  {
    NewKeysAreFresh(alerts, rows, k);
    var r :| r in Fresh(alerts, rows) && r.Key() == k;
    var landed := SortBy(At, Fresh(alerts, rows));
    SortKeepsElements(At, Fresh(alerts, rows));
    Positions(Fresh(alerts, rows), landed);
    i :| 0 <= i < |landed| && landed[i] == r;
  }

  /** No stored alert of a grouped tenant is left out of its incident. */
  lemma CommitLinksAll(env: Env, db: Db, batch: seq<Handled>, tenant: TenantId)
    requires TablesOk(db) && GroupsFor(db, tenant) && AllLinked(db.alerts, tenant)
    ensures AllLinked(Committed(env, db, batch).alerts, tenant)
  {
    var inserted, landed := Inserted(env, db, batch), Landed(env, db, batch);
    InsertedIsOk(env, db, batch);
    CommitKeepsTables(env, db, batch);
    FreshLand(db.alerts, RowsOf(env, batch));
    forall k | k in Committed(env, db, batch).alerts && k.tenant == tenant
      ensures Committed(env, db, batch).alerts[k].incident.Some?
    {
      if k in db.alerts {
        GroupAllKeepsLinked(env, inserted, landed, k);
      } else {
        var i := NewKeysLand(db.alerts, RowsOf(env, batch), k);
        GroupAllLinks(env, inserted, landed, i, k);
      }
    }
  }

  // ---- a repeated key is counted twice ----------------------------------------

  // More alerts counted than are linked.
  ghost predicate Excess(db: Db, i: nat) {
    i < |db.incidents| && |LinkedKeys(db.alerts, i)| < db.incidents[i].alertCount
  }

  ghost predicate Overcounted(db: Db) { exists i :: Excess(db, i) }

  lemma GroupOneKeepsExcess(env: Env, db: Db, row: Row, i: nat)
    requires TablesOk(db) && row.Key() in db.alerts && Excess(db, i)
    ensures Excess(GroupOne(env, db, row), i)
  {
    if GroupsFor(db, row.alert.tenant) {
      var config := db.tenants[row.alert.tenant];
      PlaceKeepsUniqueOpen(db.incidents, db.counters, row.alert, config, row.groupedAt, env.size);
      PlaceCounts(db, row.alert, config, row.groupedAt, env.size, i);
      var p := Place(db.incidents, db.counters, row.alert, config, row.groupedAt, env.size);
      RelinkCounts(db.alerts, row.Key(), p.id, i);
    }
  }

  // Grouping an alert that is linked already: the incident it was linked to loses it or
  // counts it again.
  lemma GroupOneRepeats(env: Env, db: Db, row: Row)
    requires TablesOk(db) && CountsCover(db) && GroupsFor(db, row.alert.tenant)
    requires row.Key() in db.alerts && db.alerts[row.Key()].incident.Some?
    ensures Excess(GroupOne(env, db, row), db.alerts[row.Key()].incident.value)
  {
    var config, i := db.tenants[row.alert.tenant], db.alerts[row.Key()].incident.value;
    PlaceKeepsUniqueOpen(db.incidents, db.counters, row.alert, config, row.groupedAt, env.size);
    PlaceCounts(db, row.alert, config, row.groupedAt, env.size, i);
    var p := Place(db.incidents, db.counters, row.alert, config, row.groupedAt, env.size);
    RelinkAgain(db.alerts, row.Key(), p.id);
  }

  lemma RelinkAgain(alerts: map<AlertKey, Stored>, key: AlertKey, id: nat)
    requires key in alerts && alerts[key].incident.Some?
    ensures var i := alerts[key].incident.value;
      |LinkedKeys(Relinked(alerts, key, id), i)| == |LinkedKeys(alerts, i)| - if i == id then 0 else 1
  {
    var i := alerts[key].incident.value;
    assert key in LinkedKeys(alerts, i);
    if i == id {
      assert Relinked(alerts, key, id) == alerts;
    } else {
      assert LinkedKeys(Relinked(alerts, key, id), i) == LinkedKeys(alerts, i) - {key};
    }
  }

  lemma {:induction false} GroupAllKeepsExcess(env: Env, db: Db, rows: seq<Row>, i: nat)
    requires TablesOk(db) && Excess(db, i) && forall r | r in rows :: r.Key() in db.alerts
    ensures Excess(GroupAll(env, db, rows), i)
  {
    if rows != [] {
      GroupAllKeepsExcess(env, db, rows[..|rows| - 1], i);
      GroupAllKeepsTables(env, db, rows[..|rows| - 1]);
      GroupOneKeepsExcess(env, GroupAll(env, db, rows[..|rows| - 1]), rows[|rows| - 1], i);
    }
  }

  lemma {:induction false} GroupAllRepeats(env: Env, db: Db, rows: seq<Row>, k: AlertKey)
    requires TablesOk(db) && CountsCover(db) && forall r | r in rows :: r.Key() in db.alerts
    requires GroupsFor(db, k.tenant) && KeyCount(rows, k) >= 2
    ensures Overcounted(GroupAll(env, db, rows))
    decreases rows
  {
    hide TablesOk, GroupOne;
    var front, last := rows[..|rows| - 1], rows[|rows| - 1];
    var mid := GroupAll(env, db, front);
    GroupAllKeepsTables(env, db, front);
    if KeyCount(front, k) >= 2 {
      GroupAllRepeats(env, db, front, k);
      var i :| Excess(mid, i);
      GroupOneKeepsExcess(env, mid, last, i);
    } else {
      CountIfNone(HasKey(k), front);
      var r :| r in front && HasKey(k)(r);
      var i :| 0 <= i < |front| && front[i] == r;
      GroupAllLinks(env, db, front, i, k);
      GroupOneRepeats(env, mid, last);
    }
  }

  lemma CommitKeepsExcess(env: Env, db: Db, batch: seq<Handled>, i: nat)
    requires TablesOk(db) && Excess(db, i)
    ensures Excess(Committed(env, db, batch), i)
  {
    InsertedIsOk(env, db, batch);
    assert LinkedKeys(Inserted(env, db, batch).alerts, i) == LinkedKeys(db.alerts, i);
    GroupAllKeepsExcess(env, Inserted(env, db, batch), Landed(env, db, batch), i);
  }

  lemma RepeatOvercounts(env: Env, db: Db, batch: seq<Handled>)
    requires TablesOk(db) && CountsCover(db) && !CleanBatch(env, db, batch)
    ensures Overcounted(Committed(env, db, batch))
  {
    InsertedIsOk(env, db, batch);
    var k: AlertKey :| GroupsFor(db, k.tenant) && k !in db.alerts && KeyCount(RowsOf(env, batch), k) > 1;
    LandedKeyCount(db.alerts, RowsOf(env, batch), k);
    GroupAllRepeats(env, Inserted(env, db, batch), Landed(env, db, batch), k);
  }

  lemma OvercountedIsNotExact(db: Db)
    requires Overcounted(db)
    ensures !IncidentsExact(db) && !Exact(db)
  {
    var i :| Excess(db, i);
  }

  /** One batch, exactly: from exact counts it leaves exact counts - each stored alert
      counted once by its one incident and once by each entity among its first fifty of
      a kind - if and only if no new key of a grouped tenant comes in it twice. */
  lemma CommitIsExactIffClean(env: Env, db: Db, batch: seq<Handled>)
    requires TablesOk(db) && Exact(db)
    ensures Exact(Committed(env, db, batch)) <==> CleanBatch(env, db, batch)
  {
    if CleanBatch(env, db, batch) {
      CleanCommitIsExact(env, db, batch);
    } else {
      RepeatOvercounts(env, db, batch);
      OvercountedIsNotExact(Committed(env, db, batch));
    }
  }

  // ---- redelivery -------------------------------------------------------------

  ghost predicate AllStored(rows: seq<Row>, alerts: map<AlertKey, Stored>) {
    forall i | 0 <= i < |rows| :: rows[i].Key() in alerts
  }

  lemma {:induction false} NothingLands(alerts: map<AlertKey, Stored>, rows: seq<Row>)
    requires AllStored(rows, alerts)
    ensures InsertAll(alerts, rows) == alerts && Fresh(alerts, rows) == []
  {
    if rows != [] {
      NothingLands(alerts, rows[..|rows| - 1]);
    }
  }

  /** Redelivery, exactly: a commit changes nothing at all if and only if every row of
      the batch is stored already. */
  lemma UnchangedIffAllStored(env: Env, db: Db, batch: seq<Handled>)
    requires TablesOk(db)
    ensures Committed(env, db, batch) == db <==> AllStored(RowsOf(env, batch), db.alerts)
  {
    var rows := RowsOf(env, batch);
    if i :| 0 <= i < |rows| && rows[i].Key() !in db.alerts {
      FreshLand(db.alerts, rows);
      CommitKeepsTables(env, db, batch);
      assert rows[i].Key() in InsertAll(db.alerts, rows);
      assert rows[i].Key() in Committed(env, db, batch).alerts.Keys;
    } else {
      NothingLands(db.alerts, rows);
      assert db.(alerts := db.alerts) == db;
    }
  }
}
