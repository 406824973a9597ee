/** The tables the pipeline writes, as one value and as the object a session changes. */
module Tables {
  import Partitions
  import opened Wrappers
  import opened Evidence
  import opened Model
  import opened SlaPolicy

  // The unique constraint of the alerts table.
  datatype AlertKey = AlertKey(tenant: TenantId, wazuhId: string, timestamp: Time)

  // One parsed and normalised alert.
  datatype Alert = Alert(
    tenant: TenantId,
    wazuhId: string,
    timestamp: Time,
    ruleId: int,
    ruleLevel: int,
    ruleDesc: string,
    ecs: Ecs,
    related: Entities,
    fingerprint: string,
    primary: string)
  {
    function Key(): AlertKey { AlertKey(tenant, wazuhId, timestamp) }

    function View(): View { Evidence.View.View(timestamp, ruleDesc, ruleLevel, ecs, related) }
  }

  datatype Stored = Stored(alert: Alert, incident: Option<nat>)

  datatype EntityKey = EntityKey(tenant: TenantId, kind: Kind, value: string)

  datatype EntityRow = EntityRow(firstSeen: Time, lastSeen: Time, alertCount: int)

  datatype Role = Source | Observed

  datatype TenantConfig = TenantConfig(windowMinutes: int, policy: seq<SlaRow>)

  // Incidents are never deleted; an incident's id is its position.
  datatype Db = Db(
    tenants: map<TenantId, TenantConfig>,
    alerts: map<AlertKey, Stored>,
    incidents: seq<IncidentRow>,
    counters: map<TenantId, int>,
    entities: map<EntityKey, EntityRow>,
    links: map<(nat, EntityKey), Role>)

  // Alerts and bytes delivered for a tenant on one day, redelivered ones included.
  datatype Stat = Stat(count: nat, bytes: nat)

  type Stats = map<(TenantId, int), Stat>

  class Database {
    var tenants: map<TenantId, TenantConfig>
    var alerts: map<AlertKey, Stored>
    var incidents: seq<IncidentRow>
    var counters: map<TenantId, int>
    var entities: map<EntityKey, EntityRow>
    var links: map<(nat, EntityKey), Role>
    var stats: Stats
    // The partitions that alerts are stored in, by name.
    var partitions: Partitions.Catalogue

    function State(): Db
      reads this
    {
      Db(tenants, alerts, incidents, counters, entities, links)
    }
  }
}
