/** Attach one alert to the open incident of its fingerprint, or create one. */
module Grouping {
  import opened Wrappers
  import opened Evidence
  import opened Model
  import opened SlaPolicy
  import opened Sla
  import opened Tables

  const MAX_TITLE := 200
  const RELATED_LOOKBACK := 7 * DAY

  // How the encoder measures a snapshot.
  type Sizer = Snapshot -> nat

  // ---- the two queries --------------------------------------------------------

  predicate IsOpenFor(row: IncidentRow, tenant: TenantId, fingerprint: string) {
    row.tenant == tenant && row.fingerprint == fingerprint && IsOpen(row.clock.status)
  }

  function FindOpen(rows: seq<IncidentRow>, tenant: TenantId, fingerprint: string): (r: Option<nat>)
    ensures r.Some? ==> r.value < |rows| && IsOpenFor(rows[r.value], tenant, fingerprint)
    ensures r.None? <==> forall i | 0 <= i < |rows| :: !IsOpenFor(rows[i], tenant, fingerprint)
  {
    if rows == [] then None
    else
      var n := |rows| - 1;
      if IsOpenFor(rows[n], tenant, fingerprint) then Some(n) else FindOpen(rows[..n], tenant, fingerprint)
  }

  predicate RecentlyClosed(row: IncidentRow, tenant: TenantId, fingerprint: string, now: Time) {
    && row.tenant == tenant && row.fingerprint == fingerprint && IsClosed(row.clock.status)
    && row.clock.closedAt.Some? && row.clock.closedAt.value >= now - RELATED_LOOKBACK
  }

  function RecentResolved(rows: seq<IncidentRow>, tenant: TenantId, fingerprint: string, now: Time): (r: Option<nat>)
    ensures r.Some? ==>
      && r.value < |rows|
      && RecentlyClosed(rows[r.value], tenant, fingerprint, now)
      && forall i | 0 <= i < |rows| && RecentlyClosed(rows[i], tenant, fingerprint, now) ::
           rows[i].clock.closedAt.value <= rows[r.value].clock.closedAt.value
    ensures r.None? <==> forall i | 0 <= i < |rows| :: !RecentlyClosed(rows[i], tenant, fingerprint, now)
  {
    if rows == [] then None
    else
      var n := |rows| - 1;
      var before := RecentResolved(rows[..n], tenant, fingerprint, now);
      if RecentlyClosed(rows[n], tenant, fingerprint, now)
        && (before.None? || rows[before.value].clock.closedAt.value < rows[n].clock.closedAt.value)
      then Some(n) else before
  }

  // ---- the counter ------------------------------------------------------------

  // The next number a tenant would be given; an absent row means none was given yet.
  function NextNumber(counters: map<TenantId, int>, tenant: TenantId): int {
    if tenant in counters then counters[tenant] else 1
  }

  /** Upsert-and-return: a new row starts at 2, an old one moves up by one, and the
      number handed out is one less than what is now stored. */
  method NextIncidentNumber(db: Database, tenant: TenantId) returns (number: int)
    modifies db`counters
    ensures number == NextNumber(old(db.counters), tenant)
    ensures db.counters == old(db.counters)[tenant := number + 1]
  {
    var stored := 2;
    if tenant in db.counters { stored := db.counters[tenant] + 1; }
    db.counters := db.counters[tenant := stored];
    number := stored - 1;
  }

  // ---- attach -----------------------------------------------------------------

  function CountOf(summary: map<SummaryKey, int>, key: SummaryKey): int {
    if key in summary then summary[key] else 0
  }

  function Bump(summary: map<SummaryKey, int>, key: SummaryKey): map<SummaryKey, int> {
    summary[key := CountOf(summary, key) + 1]
  }

  predicate IsLate(row: IncidentRow, a: Alert, windowMinutes: int) {
    a.timestamp - row.lastSeen > windowMinutes * MINUTE
  }

  function AttachRow(row: IncidentRow, a: Alert, policy: seq<SlaRow>, late: bool, size: Sizer): IncidentRow {
    var summary := if late then Bump(row.ruleSummary, Late) else row.ruleSummary;
    row.(clock := Attached(row.clock, a.timestamp, a.ruleLevel, policy),
         lastSeen := Max(row.lastSeen, a.timestamp),
         alertCount := row.alertCount + 1,
         ruleSummary := Bump(summary, Rule(a.ruleId)),
         evidence := Update(row.evidence, a.View(), false, size))
  }

  // First seen and severity; only a level above the severity asks for a recomputation.
  method AttachClock(incident: Incident, at: Time, level: int, policy: seq<SlaRow>)
    modifies incident`firstSeen, incident`severity, incident`slaRespondBy, incident`slaResolveBy
    ensures incident.SlaPart() == Attached(old(incident.SlaPart()), at, level, policy)
  {
    incident.firstSeen := Min(incident.firstSeen, at);
    if level > incident.severity {
      incident.severity := level;
      var band := FindBand(policy, incident.severity);
      ApplyOnEscalation(incident, band);
    }
  }

  method Attach(incident: Incident, a: Alert, policy: seq<SlaRow>, late: bool, size: Sizer)
    modifies incident
    ensures incident.Row() == AttachRow(old(incident.Row()), a, policy, late, size)
  {
    hide Update, Bump;
    if late {
      incident.ruleSummary := Bump(incident.ruleSummary, Late);
    }
    incident.lastSeen := Max(incident.lastSeen, a.timestamp);
    incident.alertCount := incident.alertCount + 1;
    incident.ruleSummary := Bump(incident.ruleSummary, Rule(a.ruleId));
    AttachClock(incident, a.timestamp, a.ruleLevel, policy);
    var snapshot := UpdateInPlace(incident.evidence, a.View(), false, size);
    incident.evidence := snapshot;
  }

  // ---- create -----------------------------------------------------------------

  function Title(description: string): string {
    if |description| > MAX_TITLE then description[..MAX_TITLE] else description
  }

  function CreateRow(a: Alert, policy: seq<SlaRow>, number: int, related: Option<nat>, size: Sizer): IncidentRow {
    IncidentRow(a.tenant, number, Title(a.ruleDesc), a.fingerprint,
                FreshClock(a.timestamp, a.ruleLevel, policy),
                a.timestamp, 1, map[Rule(a.ruleId) := 1], Update(EMPTY, a.View(), true, size), related)
  }

  // ---- attach or create -------------------------------------------------------

  datatype Placement = Placement(incidents: seq<IncidentRow>, counters: map<TenantId, int>, id: nat, created: bool)

  function Place(incidents: seq<IncidentRow>, counters: map<TenantId, int>, a: Alert,
                 config: TenantConfig, now: Time, size: Sizer): Placement {
    var open := FindOpen(incidents, a.tenant, a.fingerprint);
    if open.Some? then
      var row := incidents[open.value];
      Placement(incidents[open.value := AttachRow(row, a, config.policy, IsLate(row, a, config.windowMinutes), size)],
                counters, open.value, false)
    else
      var number := NextNumber(counters, a.tenant);
      var related := RecentResolved(incidents, a.tenant, a.fingerprint, now);
      Placement(incidents + [CreateRow(a, config.policy, number, related, size)],
                counters[a.tenant := number + 1], |incidents|, true)
  }

  method AttachOrCreate(db: Database, a: Alert, windowMinutes: int, policy: seq<SlaRow>, now: Time, size: Sizer)
      returns (id: nat, created: bool)
    modifies db`incidents, db`counters
    ensures Placement(db.incidents, db.counters, id, created)
         == Place(old(db.incidents), old(db.counters), a, TenantConfig(windowMinutes, policy), now, size)
  {
    var open := FindOpen(db.incidents, a.tenant, a.fingerprint);
    if open.Some? {
      id, created := open.value, false;
      var incident := new Incident(db.incidents[id]);
      var late := a.timestamp - incident.lastSeen > windowMinutes * MINUTE;
      Attach(incident, a, policy, late, size);
      db.incidents := db.incidents[id := incident.Row()];
      return;
    }
    var number := NextIncidentNumber(db, a.tenant);
    var snapshot := UpdateInPlace(EMPTY, a.View(), true, size);
    var previous := RecentResolved(db.incidents, a.tenant, a.fingerprint, now);
    var incident := new Incident(IncidentRow(
      a.tenant, number, Title(a.ruleDesc), a.fingerprint,
      Clock(New, a.ruleLevel, a.timestamp, None, None, None, 0, None, None),
      a.timestamp, 1, map[Rule(a.ruleId) := 1], snapshot, previous));
    var band := FindBand(policy, a.ruleLevel);
    ApplyOnCreate(incident, band);
    id, created := |db.incidents|, true;
    db.incidents := db.incidents + [incident.Row()];
  }

  // ---- the case an alert opens ------------------------------------------------

  // Closed within the seven days before `now`.
  predicate ClosedThisWeek(row: IncidentRow, tenant: TenantId, fingerprint: string, now: Time) {
    && row.tenant == tenant && row.fingerprint == fingerprint
    && (row.clock.status == Resolved || row.clock.status == FalsePositive)
    && row.clock.closedAt.Some? && now - row.clock.closedAt.value <= 7 * 24 * 60 * 60 * 1_000_000
  }

  // The case it recurs: the one closed last among those closed within seven days, if any.
  ghost predicate IsRecurrenceOf(rows: seq<IncidentRow>, tenant: TenantId, fingerprint: string, now: Time,
      related: Option<nat>)
  {
    && (related.None? <==> forall i | 0 <= i < |rows| :: !ClosedThisWeek(rows[i], tenant, fingerprint, now))
    && (related.Some? ==>
          && related.value < |rows| && ClosedThisWeek(rows[related.value], tenant, fingerprint, now)
          && forall i | 0 <= i < |rows| && ClosedThisWeek(rows[i], tenant, fingerprint, now) ::
               rows[i].clock.closedAt.value <= rows[related.value].clock.closedAt.value)
  }

  // The row of the policy that applies: the highest floor not above the level.
  ghost predicate Applies(policy: seq<SlaRow>, level: int, row: SlaRow) {
    row in policy && row.severityMin <= level
    && forall other | other in policy && other.severityMin <= level :: other.severityMin <= row.severityMin
  }

  // Both deadlines run from `from`, by the row that applies; without one there are none.
  ghost predicate DueBy(c: Clock, from: Time, policy: seq<SlaRow>, level: int) {
    && (forall row | Applies(policy, level, row) ::
          && c.respondBy == Some(from + row.respondMinutes * 60 * 1_000_000)
          && c.resolveBy == Some(from + row.resolveMinutes * 60 * 1_000_000))
    && ((forall row | row in policy :: row.severityMin > level) ==> c.respondBy.None? && c.resolveBy.None?)
  }

  lemma MatchApplies(policy: seq<SlaRow>, level: int, row: SlaRow)
    requires SortedByFloor(policy) && Applies(policy, level, row)
    ensures Match(policy, level) == Some(row)
  {
    MatchIsHighestFloor(policy, level);
    var m := Match(policy, level).value;
    assert m.severityMin == row.severityMin;
    var i :| 0 <= i < |policy| && policy[i] == m;
    var j :| 0 <= j < |policy| && policy[j] == row;
  }

  lemma FreshClockIs(at: Time, level: int, policy: seq<SlaRow>)
    requires SortedByFloor(policy)
    ensures var c := FreshClock(at, level, policy);
      && c.status == New && c.severity == level && c.firstSeen == at && c.pausedAt.None? && c.pausedSeconds == 0
      && c.firstResponseAt.None? && c.closedAt.None? && DueBy(c, at, policy, level)
  {
    hide Applies, Match, SortedByFloor;
    forall row | Applies(policy, level, row) ensures Match(policy, level) == Some(row) {
      MatchApplies(policy, level, row);
    }
    MatchIsHighestFloor(policy, level);
  }

  lemma RecurrenceIs(rows: seq<IncidentRow>, tenant: TenantId, fingerprint: string, now: Time)
    ensures IsRecurrenceOf(rows, tenant, fingerprint, now, RecentResolved(rows, tenant, fingerprint, now))
  {
    forall i | 0 <= i < |rows|
      ensures ClosedThisWeek(rows[i], tenant, fingerprint, now) <==> RecentlyClosed(rows[i], tenant, fingerprint, now)
    {
    }
  }

  /** The case an alert opens when none is open for it: its tenant's next number, its
      description cut to 200 characters, its fingerprint, level and instant, one alert of its
      rule, nothing paused, answered or closed, due by the stored policy, and linked to the
      case it recurs. */
  lemma OpenedCaseIs(incidents: seq<IncidentRow>, counters: map<TenantId, int>, a: Alert, config: TenantConfig,
      now: Time, size: Sizer)
    requires SortedByFloor(config.policy)
    requires forall i | 0 <= i < |incidents| :: !IsOpenFor(incidents[i], a.tenant, a.fingerprint)
    ensures var p := Place(incidents, counters, a, config, now, size);
      && p.created && p.id == |incidents| && |p.incidents| == |incidents| + 1 && p.incidents[..|incidents|] == incidents
      && (a.tenant in counters ==> p.incidents[p.id].number == counters[a.tenant])
      && (a.tenant !in counters ==> p.incidents[p.id].number == 1)
      && p.counters == counters[a.tenant := p.incidents[p.id].number + 1]
      && var row := p.incidents[p.id];
      && row.tenant == a.tenant && row.fingerprint == a.fingerprint
      && row.title == a.ruleDesc[..Min(|a.ruleDesc|, 200)]
      && row.lastSeen == a.timestamp && row.alertCount == 1 && row.ruleSummary == map[Rule(a.ruleId) := 1]
      && row.clock == FreshClock(a.timestamp, a.ruleLevel, config.policy)
      && row.clock.status == New && row.clock.severity == a.ruleLevel && row.clock.firstSeen == a.timestamp
      && DueBy(row.clock, a.timestamp, config.policy, a.ruleLevel)
      && IsRecurrenceOf(incidents, a.tenant, a.fingerprint, now, row.related)
  {
    hide FreshClock, Update, DueBy, IsRecurrenceOf, RecentResolved;
    FreshClockIs(a.timestamp, a.ruleLevel, config.policy);
    RecurrenceIs(incidents, a.tenant, a.fingerprint, now);
  }
}
