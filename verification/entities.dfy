/** Entity rows and their links to incidents. */
module EntityStore {
  import opened Wrappers
  import opened Evidence
  import opened Model
  import opened Tables

  const MAX_PER_TYPE := 50
  const KINDS: seq<Kind> := [Ip, User, Host, Hash]

  // The usable entity keys of one list: the first fifty values, empties passed over.
  function KeysOf(tenant: TenantId, kind: Kind, values: seq<string>): seq<EntityKey> {
    if values == [] then []
    else
      var before := KeysOf(tenant, kind, values[..|values| - 1]);
      var value := values[|values| - 1];
      if value == "" then before else before + [EntityKey(tenant, kind, value)]
  }

  function KeysOfKinds(tenant: TenantId, related: Entities, kinds: seq<Kind>): seq<EntityKey> {
    if kinds == [] then []
    else
      var kind := kinds[|kinds| - 1];
      KeysOfKinds(tenant, related, kinds[..|kinds| - 1])
      + KeysOf(tenant, kind, Capped(ListAt(related, kind), MAX_PER_TYPE))
  }

  // Every entity one alert lists, in the order they are written.
  function Listed(tenant: TenantId, related: Entities): seq<EntityKey> {
    KeysOfKinds(tenant, related, KINDS)
  }

  // The alert's lists name the entity: a value of its kind, not empty, among the first
  // fifty.
  predicate Names(tenant: TenantId, related: Entities, e: EntityKey) {
    && e.tenant == tenant && e.value != "" && e.kind in related
    && exists i | 0 <= i < |related[e.kind]| :: i < 50 && related[e.kind][i] == e.value
  }

  lemma {:induction false} KeysOfHolds(tenant: TenantId, kind: Kind, values: seq<string>, e: EntityKey)
    ensures e in KeysOf(tenant, kind, values) <==>
      e.tenant == tenant && e.kind == kind && e.value != "" && e.value in values
  {
    if values != [] {
      KeysOfHolds(tenant, kind, values[..|values| - 1], e);
      assert values == values[..|values| - 1] + [values[|values| - 1]];
    }
  }

  lemma {:induction false} KeysOfKindsHolds(tenant: TenantId, related: Entities, kinds: seq<Kind>, e: EntityKey)
    ensures e in KeysOfKinds(tenant, related, kinds) <==> e.kind in kinds && Names(tenant, related, e)
  {
    if kinds != [] {
      var front, kind := kinds[..|kinds| - 1], kinds[|kinds| - 1];
      KeysOfKindsHolds(tenant, related, front, e);
      KeysOfHolds(tenant, kind, Capped(ListAt(related, kind), MAX_PER_TYPE), e);
      FirstFifty(related, kind, e.value);
      assert kinds == front + [kind];
    }
  }

  lemma FirstFifty(related: Entities, kind: Kind, value: string)
    ensures value in Capped(ListAt(related, kind), MAX_PER_TYPE) <==>
      kind in related && exists i | 0 <= i < |related[kind]| :: i < 50 && related[kind][i] == value
  {
    var list := ListAt(related, kind);
    if value in Capped(list, MAX_PER_TYPE) {
      var i :| 0 <= i < |Capped(list, MAX_PER_TYPE)| && Capped(list, MAX_PER_TYPE)[i] == value;
      assert related[kind][i] == value;
    }
    if kind in related && exists i | 0 <= i < |related[kind]| :: i < 50 && related[kind][i] == value {
      var i :| 0 <= i < |related[kind]| && i < 50 && related[kind][i] == value;
      assert Capped(list, MAX_PER_TYPE)[i] == value;
    }
  }

  /** Which entities an alert lists: those its lists name, of every kind there is. */
  lemma ListedExactly(tenant: TenantId, related: Entities, e: EntityKey)
    ensures e in Listed(tenant, related) <==> Names(tenant, related, e)
  {
    KeysOfKindsHolds(tenant, related, KINDS, e);
    match e.kind
    case Ip => assert KINDS[0] == Ip;
    case User => assert KINDS[1] == User;
    case Host => assert KINDS[2] == Host;
    case Hash => assert KINDS[3] == Hash;
  }

  function Upsert(entities: map<EntityKey, EntityRow>, e: EntityKey, at: Time): map<EntityKey, EntityRow> {
    entities[e := if e in entities
                  then EntityRow(Min(entities[e].firstSeen, at), Max(entities[e].lastSeen, at),
                                 entities[e].alertCount + 1)
                  else EntityRow(at, at, 1)]
  }

  function UpsertAll(entities: map<EntityKey, EntityRow>, listed: seq<EntityKey>, at: Time): map<EntityKey, EntityRow> {
    if listed == [] then entities
    else Upsert(UpsertAll(entities, listed[..|listed| - 1], at), listed[|listed| - 1], at)
  }

  function Link(links: map<(nat, EntityKey), Role>, incident: nat, e: EntityKey,
      primary: string): map<(nat, EntityKey), Role> {
    if (incident, e) in links then links
    else links[(incident, e) := if e.value == primary then Source else Observed]
  }

  function LinkAll(links: map<(nat, EntityKey), Role>, incident: nat, listed: seq<EntityKey>,
      primary: string): map<(nat, EntityKey), Role> {
    if listed == [] then links
    else Link(LinkAll(links, incident, listed[..|listed| - 1], primary), incident, listed[|listed| - 1], primary)
  }

  lemma {:induction false} UpsertAllAppends(entities: map<EntityKey, EntityRow>, a: seq<EntityKey>,
      b: seq<EntityKey>, at: Time)
    ensures UpsertAll(entities, a + b, at) == UpsertAll(UpsertAll(entities, a, at), b, at)
  {
    if b == [] {
      assert a + b == a;
    } else {
      UpsertAllAppends(entities, a, b[..|b| - 1], at);
      assert (a + b)[..|a + b| - 1] == a + b[..|b| - 1];
    }
  }

  lemma {:induction false} LinkAllAppends(links: map<(nat, EntityKey), Role>, incident: nat, a: seq<EntityKey>,
      b: seq<EntityKey>, primary: string)
    ensures LinkAll(links, incident, a + b, primary)
         == LinkAll(LinkAll(links, incident, a, primary), incident, b, primary)
  {
    if b == [] {
      assert a + b == a;
    } else {
      LinkAllAppends(links, incident, a, b[..|b| - 1], primary);
      assert (a + b)[..|a + b| - 1] == a + b[..|b| - 1];
    }
  }

  // The inner loop: the values of one kind.
  method UpsertKind(db: Database, tenant: TenantId, incident: nat, kind: Kind, values: seq<string>, seenAt: Time,
      primary: string)
      returns (touched: nat)
    modifies db`entities, db`links
    ensures db.entities == UpsertAll(old(db.entities), KeysOf(tenant, kind, values), seenAt)
    ensures db.links == LinkAll(old(db.links), incident, KeysOf(tenant, kind, values), primary)
    ensures touched == |KeysOf(tenant, kind, values)|
  {
    touched := 0;
    for i := 0 to |values|
      invariant db.entities == UpsertAll(old(db.entities), KeysOf(tenant, kind, values[..i]), seenAt)
      invariant db.links == LinkAll(old(db.links), incident, KeysOf(tenant, kind, values[..i]), primary)
      invariant touched == |KeysOf(tenant, kind, values[..i])|
    {
      assert values[..i + 1][..i] == values[..i];
      var value := values[i];
      if value != "" {
        var e := EntityKey(tenant, kind, value);
        db.entities := Upsert(db.entities, e, seenAt);
        db.links := Link(db.links, incident, e, primary);
        touched := touched + 1;
      }
    }
    assert values[..|values|] == values;
  }

  /** Upserts and links every entity of one alert. */
  method UpsertAndLink(db: Database, tenant: TenantId, incident: nat, related: Entities, seenAt: Time, primary: string)
      returns (touched: nat)
    modifies db`entities, db`links
    ensures db.entities == UpsertAll(old(db.entities), Listed(tenant, related), seenAt)
    ensures db.links == LinkAll(old(db.links), incident, Listed(tenant, related), primary)
    ensures touched == |Listed(tenant, related)|
    ensures forall e :: e in db.entities <==> e in old(db.entities) || Names(tenant, related, e)
    ensures forall i: nat, e ::
      (i, e) in db.links <==> (i, e) in old(db.links) || (i == incident && Names(tenant, related, e))
  {
    touched := 0;
    var kinds := KINDS;
    for k := 0 to |kinds|
      invariant db.entities == UpsertAll(old(db.entities), KeysOfKinds(tenant, related, kinds[..k]), seenAt)
      invariant db.links == LinkAll(old(db.links), incident, KeysOfKinds(tenant, related, kinds[..k]), primary)
      invariant touched == |KeysOfKinds(tenant, related, kinds[..k])|
    {
      assert kinds[..k + 1][..k] == kinds[..k];
      ghost var before := KeysOfKinds(tenant, related, kinds[..k]);
      var values := Capped(ListAt(related, kinds[k]), MAX_PER_TYPE);
      UpsertAllAppends(old(db.entities), before, KeysOf(tenant, kinds[k], values), seenAt);
      LinkAllAppends(old(db.links), incident, before, KeysOf(tenant, kinds[k], values), primary);
      var more := UpsertKind(db, tenant, incident, kinds[k], values, seenAt, primary);
      touched := touched + more;
    }
    assert kinds[..|kinds|] == kinds;
    forall e ensures e in db.entities <==> e in old(db.entities) || Names(tenant, related, e) {
      UpsertCounts(old(db.entities), Listed(tenant, related), seenAt, e);
      ListedExactly(tenant, related, e);
    }
    forall i: nat, e
      ensures (i, e) in db.links <==> (i, e) in old(db.links) || (i == incident && Names(tenant, related, e))
    {
      LinkAllHolds(old(db.links), incident, Listed(tenant, related), primary, (i, e));
      ListedExactly(tenant, related, e);
    }
  }

  // ---- each listed entity is counted once per listing -------------------------

  function CountAt(entities: map<EntityKey, EntityRow>, e: EntityKey): int {
    if e in entities then entities[e].alertCount else 0
  }

  lemma {:induction false} OccurrencesAppend(s: seq<EntityKey>, last: EntityKey, e: EntityKey)
    ensures Occurrences(s + [last], e) == Occurrences(s, e) + if last == e then 1 else 0
  {
    if s == [] {
      assert s + [last] == [last];
    } else {
      OccurrencesAppend(s[1..], last, e);
      assert (s + [last])[1..] == s[1..] + [last];
    }
  }

  lemma {:induction false} UpsertCounts(entities: map<EntityKey, EntityRow>, listed: seq<EntityKey>, at: Time,
      e: EntityKey)
    ensures CountAt(UpsertAll(entities, listed, at), e) == CountAt(entities, e) + Occurrences(listed, e)
    ensures e in UpsertAll(entities, listed, at) <==> e in entities || e in listed
  {
    if listed != [] {
      var front, last := listed[..|listed| - 1], listed[|listed| - 1];
      UpsertCounts(entities, front, at, e);
      OccurrencesAppend(front, last, e);
      assert listed == front + [last];
    }
  }

  /** One alert only widens an entity's times, and just enough to hold its own. */
  lemma {:induction false} UpsertWidens(entities: map<EntityKey, EntityRow>, listed: seq<EntityKey>, at: Time,
      e: EntityKey)
    ensures var after := UpsertAll(entities, listed, at);
      && (e in listed ==>
            && e in after
            && after[e].firstSeen == (if e in entities && entities[e].firstSeen < at then entities[e].firstSeen else at)
            && after[e].lastSeen == (if e in entities && entities[e].lastSeen > at then entities[e].lastSeen else at))
      && (e !in listed && e in entities ==> e in after && after[e] == entities[e])
  {
    if listed != [] {
      var front, last := listed[..|listed| - 1], listed[|listed| - 1];
      UpsertWidens(entities, front, at, e);
      UpsertCounts(entities, front, at, e);
      assert listed == front + [last];
    }
  }

  /** Links: exactly the listed entities are linked besides those that were, a link
      once made keeps its role, and a new one is the source's exactly when it is the
      primary entity. */
  lemma {:induction false} LinkAllHolds(links: map<(nat, EntityKey), Role>, incident: nat, listed: seq<EntityKey>,
      primary: string, key: (nat, EntityKey))
    ensures var after := LinkAll(links, incident, listed, primary);
      && (key in after <==> key in links || (key.0 == incident && key.1 in listed))
      && (key in links ==> after[key] == links[key])
      && (key in after && key !in links ==> (after[key] == Source <==> key.1.value == primary))
  {
    if listed != [] {
      LinkAllHolds(links, incident, listed[..|listed| - 1], primary, key);
      assert listed == listed[..|listed| - 1] + [listed[|listed| - 1]];
    }
  }

  lemma {:induction false} KeysOfIsDistinct(tenant: TenantId, kind: Kind, values: seq<string>)
    requires Distinct(values)
    ensures Distinct(KeysOf(tenant, kind, values))
    ensures forall e | e in KeysOf(tenant, kind, values) :: e.tenant == tenant && e.kind == kind && e.value in values
  {
    if values != [] {
      KeysOfIsDistinct(tenant, kind, values[..|values| - 1]);
      assert values == values[..|values| - 1] + [values[|values| - 1]];
    }
  }

  lemma {:induction false} KeysOfKindsIsDistinct(tenant: TenantId, related: Entities, kinds: seq<Kind>)
    requires Distinct(kinds) && forall kind | kind in related :: Distinct(related[kind])
    ensures Distinct(KeysOfKinds(tenant, related, kinds))
    ensures forall e | e in KeysOfKinds(tenant, related, kinds) :: e.tenant == tenant && e.kind in kinds
  {
    if kinds != [] {
      var front, kind := kinds[..|kinds| - 1], kinds[|kinds| - 1];
      KeysOfKindsIsDistinct(tenant, related, front);
      KeysOfIsDistinct(tenant, kind, Capped(ListAt(related, kind), MAX_PER_TYPE));
      assert kinds == front + [kind] && kind !in front;
    }
  }

  /** When the lists hold no duplicates, neither does the list of entities written,
      so one alert adds at most one to any entity. */
  lemma ListedIsDistinct(tenant: TenantId, related: Entities)
    requires forall kind | kind in related :: Distinct(related[kind])
    ensures Distinct(Listed(tenant, related))
    ensures forall e | e in Listed(tenant, related) :: e.tenant == tenant
  {
    KeysOfKindsIsDistinct(tenant, related, KINDS);
  }
}
