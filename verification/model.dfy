/** The incident record: its stored row, and the object a session loads it into. */
module Model {
  import opened Wrappers
  import opened Evidence

  // Instants and durations are whole microseconds.
  type Time = int

  const SECOND := 1_000_000
  const MINUTE := 60 * SECOND
  const HOUR := 60 * MINUTE
  const DAY := 24 * 60 * MINUTE

  // Canonical UUID text; what matters is that it never holds the separator.
  type TenantId = s: string | '|' !in s witness ""

  datatype Status = New | Active | Pending | Resolved | FalsePositive

  predicate IsClosed(status: Status) { status == Resolved || status == FalsePositive }

  predicate IsOpen(status: Status) { !IsClosed(status) }

  // The part of a row the SLA clock reads and writes.
  datatype Clock = Clock(
    status: Status,
    severity: int,
    firstSeen: Time,
    respondBy: Option<Time>,
    resolveBy: Option<Time>,
    pausedAt: Option<Time>,
    pausedSeconds: int,
    firstResponseAt: Option<Time>,
    closedAt: Option<Time>)

  // The rule summary shares one dictionary between per-rule counts and the late tally.
  datatype SummaryKey = Late | Rule(id: int)

  datatype IncidentRow = IncidentRow(
    tenant: TenantId,
    number: int,
    title: string,
    fingerprint: string,
    clock: Clock,
    lastSeen: Time,
    alertCount: int,
    ruleSummary: map<SummaryKey, int>,
    evidence: Snapshot,
    related: Option<nat>)

  class Incident {
    const tenant: TenantId
    const number: int
    const title: string
    const fingerprint: string
    const related: Option<nat>
    var status: Status
    var severity: int
    var firstSeen: Time
    var lastSeen: Time
    var alertCount: int
    var ruleSummary: map<SummaryKey, int>
    var evidence: Snapshot
    var slaRespondBy: Option<Time>
    var slaResolveBy: Option<Time>
    var slaPausedAt: Option<Time>
    var slaPausedSeconds: int
    var firstResponseAt: Option<Time>
    var closedAt: Option<Time>

    function SlaPart(): Clock
      reads this
    {
      Clock(status, severity, firstSeen, slaRespondBy, slaResolveBy,
            slaPausedAt, slaPausedSeconds, firstResponseAt, closedAt)
    }

    function Row(): IncidentRow
      reads this
    {
      IncidentRow(tenant, number, title, fingerprint, SlaPart(), lastSeen, alertCount, ruleSummary, evidence, related)
    }

    /** Loads a stored row, as a query does. */
    constructor (row: IncidentRow)
      ensures Row() == row
    {
      tenant, number, title := row.tenant, row.number, row.title;
      fingerprint, related := row.fingerprint, row.related;
      status, severity, firstSeen := row.clock.status, row.clock.severity, row.clock.firstSeen;
      lastSeen, alertCount := row.lastSeen, row.alertCount;
      ruleSummary, evidence := row.ruleSummary, row.evidence;
      slaRespondBy, slaResolveBy := row.clock.respondBy, row.clock.resolveBy;
      slaPausedAt, slaPausedSeconds := row.clock.pausedAt, row.clock.pausedSeconds;
      firstResponseAt, closedAt := row.clock.firstResponseAt, row.clock.closedAt;
    }
  }
}
