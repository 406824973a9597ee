/** What every grouped alert and every committed batch keeps true of the tables. */
module TableLaws {
  import opened Wrappers
  import opened Model
  import opened SlaPolicy
  import opened Sla
  import opened SlaRuns
  import opened Tables
  import opened Grouping

  // ---- the partial unique index -----------------------------------------------

  // One open incident per tenant and fingerprint, as the index demands.
  predicate UniqueOpen(rows: seq<IncidentRow>) {
    forall i, j | 0 <= i < j < |rows| && IsOpen(rows[j].clock.status) ::
      !IsOpenFor(rows[i], rows[j].tenant, rows[j].fingerprint)
  }

  // Attaching changes neither the identity nor the status of a row.
  lemma AttachKeepsIdentity(row: IncidentRow, a: Alert, policy: seq<SlaRow>, late: bool, size: Sizer)
    ensures var r := AttachRow(row, a, policy, late, size);
      && r.tenant == row.tenant && r.fingerprint == row.fingerprint && r.number == row.number
      && r.related == row.related && r.clock.status == row.clock.status
      && r.clock == ApplyStep(row.clock, Step.Attach(a.timestamp, a.ruleLevel, policy), 0)
      && r.alertCount == row.alertCount + 1
  {
  }

  /** Serial attach-or-create never violates the index, and leaves every closed row
      and every row of another tenant or fingerprint exactly as it was. */
  lemma PlaceKeepsUniqueOpen(incidents: seq<IncidentRow>, counters: map<TenantId, int>, a: Alert,
                             config: TenantConfig, now: Time, size: Sizer)
    requires UniqueOpen(incidents)
    ensures var p := Place(incidents, counters, a, config, now, size);
      && UniqueOpen(p.incidents)
      && |incidents| <= |p.incidents|
      && p.id < |p.incidents| <= |incidents| + 1 && (|p.incidents| > |incidents| ==> p.id == |incidents|)
      && IsOpenFor(p.incidents[p.id], a.tenant, a.fingerprint)
      && (p.id < |incidents| ==> IsOpenFor(incidents[p.id], a.tenant, a.fingerprint))
      && forall i | 0 <= i < |incidents| && i != p.id :: p.incidents[i] == incidents[i]
  {
    var open := FindOpen(incidents, a.tenant, a.fingerprint);
    if open.Some? {
      var row := incidents[open.value];
      AttachKeepsIdentity(row, a, config.policy, IsLate(row, a, config.windowMinutes), size);
    }
  }

  // ---- numbering --------------------------------------------------------------

  function CountTenant(rows: seq<IncidentRow>, tenant: TenantId): nat {
    if rows == [] then 0
    else CountTenant(rows[..|rows| - 1], tenant) + if rows[|rows| - 1].tenant == tenant then 1 else 0
  }

  // Each incident's number is its position among its tenant's, and the counter is
  // the next such position.
  ghost predicate Numbered(rows: seq<IncidentRow>, counters: map<TenantId, int>) {
    && (forall i | 0 <= i < |rows| :: rows[i].number == 1 + CountTenant(rows[..i], rows[i].tenant))
    && (forall t: TenantId :: NextNumber(counters, t) == 1 + CountTenant(rows, t))
  }

  lemma {:induction false} CountIgnoresDetails(rows: seq<IncidentRow>, i: nat, row: IncidentRow, tenant: TenantId)
    requires i < |rows| && row.tenant == rows[i].tenant
    ensures CountTenant(rows[i := row], tenant) == CountTenant(rows, tenant)
  {
    var n := |rows| - 1;
    if i < n {
      CountIgnoresDetails(rows[..n], i, row, tenant);
      assert rows[i := row][..n] == rows[..n][i := row];
    } else {
      assert rows[i := row][..n] == rows[..n];
    }
  }

  lemma UpdateKeepsNumbered(rows: seq<IncidentRow>, counters: map<TenantId, int>, i: nat, row: IncidentRow)
    requires Numbered(rows, counters) && i < |rows|
    requires row.tenant == rows[i].tenant && row.number == rows[i].number
    ensures Numbered(rows[i := row], counters)
  {
    var after := rows[i := row];
    forall k | 0 <= k < |after| ensures after[k].number == 1 + CountTenant(after[..k], after[k].tenant) {
      if i < k {
        CountIgnoresDetails(rows[..k], i, row, after[k].tenant);
        assert after[..k] == rows[..k][i := row];
      } else {
        assert after[..k] == rows[..k];
      }
    }
    forall t: TenantId ensures NextNumber(counters, t) == 1 + CountTenant(after, t) {
      CountIgnoresDetails(rows, i, row, t);
    }
  }

  lemma AppendKeepsNumbered(rows: seq<IncidentRow>, counters: map<TenantId, int>, row: IncidentRow)
    requires Numbered(rows, counters) && row.number == NextNumber(counters, row.tenant)
    ensures Numbered(rows + [row], counters[row.tenant := row.number + 1])
  {
    var after := rows + [row];
    assert after[..|rows|] == rows;
    forall k | 0 <= k < |after| ensures after[k].number == 1 + CountTenant(after[..k], after[k].tenant) {
      if k < |rows| {
        assert after[..k] == rows[..k];
        assert after[k] == rows[k];
      }
    }
    forall t: TenantId
      ensures NextNumber(counters[row.tenant := row.number + 1], t) == 1 + CountTenant(after, t)
    {
      assert NextNumber(counters, t) == 1 + CountTenant(rows, t);
    }
  }

  lemma PlaceKeepsNumbered(incidents: seq<IncidentRow>, counters: map<TenantId, int>, a: Alert,
                           config: TenantConfig, now: Time, size: Sizer)
    requires Numbered(incidents, counters)
    ensures var p := Place(incidents, counters, a, config, now, size); Numbered(p.incidents, p.counters)
  {
    var open := FindOpen(incidents, a.tenant, a.fingerprint);
    var p := Place(incidents, counters, a, config, now, size);
    if open.Some? {
      UpdateKeepsNumbered(incidents, counters, open.value, p.incidents[open.value]);
    } else {
      AppendKeepsNumbered(incidents, counters, p.incidents[|incidents|]);
    }
  }

  lemma {:induction false} CountGrows(rows: seq<IncidentRow>, i: nat, tenant: TenantId)
    requires i <= |rows|
    ensures CountTenant(rows[..i], tenant) <= CountTenant(rows, tenant)
    ensures i < |rows| && rows[i].tenant == tenant ==> CountTenant(rows[..i], tenant) < CountTenant(rows, tenant)
  {
    if i < |rows| {
      var n := |rows| - 1;
      CountGrows(rows[..n], i, tenant);
      assert rows[..n][..i] == rows[..i];
    } else {
      assert rows[..i] == rows;
    }
  }

  /** Within a tenant, a later incident has a higher number, and every number lies
      below the counter. */
  lemma NumbersIncrease(rows: seq<IncidentRow>, counters: map<TenantId, int>, i: nat, j: nat)
    requires Numbered(rows, counters) && i < j < |rows| && rows[i].tenant == rows[j].tenant
    ensures 1 <= rows[i].number < rows[j].number < NextNumber(counters, rows[j].tenant)
  {
    CountGrows(rows[..j], i, rows[i].tenant);
    assert rows[..j][..i] == rows[..i];
    CountGrows(rows, j, rows[j].tenant);
  }

  /** Every number from 1 to just below the counter belongs to an incident of the
      tenant: nothing is skipped, whatever aborted in between. */
  lemma {:induction false} NoNumberSkipped(rows: seq<IncidentRow>, tenant: TenantId, k: int) returns (i: nat)
    requires forall i | 0 <= i < |rows| :: rows[i].number == 1 + CountTenant(rows[..i], rows[i].tenant)
    requires 1 <= k <= CountTenant(rows, tenant)
    ensures i < |rows| && rows[i].tenant == tenant && rows[i].number == k
  {
    var n := |rows| - 1;
    if rows[n].tenant == tenant && rows[n].number == k {
      i := n;
    } else {
      forall m | 0 <= m < n ensures rows[..n][m].number == 1 + CountTenant(rows[..n][..m], rows[..n][m].tenant) {
        assert rows[..n][..m] == rows[..m];
      }
      i := NoNumberSkipped(rows[..n], tenant, k);
    }
  }

  // ---- recurrence links -------------------------------------------------------

  // A recurrence link points to an earlier incident of the same tenant and fingerprint.
  ghost predicate RecurrenceBackwards(rows: seq<IncidentRow>) {
    forall i | 0 <= i < |rows| && rows[i].related.Some? ::
      && rows[i].related.value < i
      && rows[rows[i].related.value].tenant == rows[i].tenant
      && rows[rows[i].related.value].fingerprint == rows[i].fingerprint
  }

  lemma PlaceKeepsRecurrence(incidents: seq<IncidentRow>, counters: map<TenantId, int>, a: Alert,
                             config: TenantConfig, now: Time, size: Sizer)
    requires RecurrenceBackwards(incidents)
    ensures RecurrenceBackwards(Place(incidents, counters, a, config, now, size).incidents)
  {
    var open := FindOpen(incidents, a.tenant, a.fingerprint);
    if open.Some? {
      var row := incidents[open.value];
      AttachKeepsIdentity(row, a, config.policy, IsLate(row, a, config.windowMinutes), size);
    }
  }

  /** Following recurrence links strictly lowers the incident number, so chains of
      "this recurred" are acyclic. */
  lemma RecurrenceLowersNumber(rows: seq<IncidentRow>, counters: map<TenantId, int>, i: nat)
    requires Numbered(rows, counters) && RecurrenceBackwards(rows)
    requires i < |rows| && rows[i].related.Some?
    ensures rows[rows[i].related.value].number < rows[i].number
  {
    NumbersIncrease(rows, counters, rows[i].related.value, i);
  }

  // ---- clocks -----------------------------------------------------------------

  ghost predicate AllCoupled(rows: seq<IncidentRow>) {
    forall i | 0 <= i < |rows| :: Coupled(rows[i].clock)
  }

  lemma PlaceKeepsCoupled(incidents: seq<IncidentRow>, counters: map<TenantId, int>, a: Alert,
                          config: TenantConfig, now: Time, size: Sizer)
    requires AllCoupled(incidents)
    ensures AllCoupled(Place(incidents, counters, a, config, now, size).incidents)
  {
    var open := FindOpen(incidents, a.tenant, a.fingerprint);
    if open.Some? {
      StepKeepsCoupling(incidents[open.value].clock, Step.Attach(a.timestamp, a.ruleLevel, config.policy), 0);
    }
  }

  // ---- one open incident collects a fingerprint's alerts ----------------------

  // How many alerts the open incident of a fingerprint has counted; 0 if none is open.
  function OpenCount(rows: seq<IncidentRow>, tenant: TenantId, fingerprint: string): int {
    var open := FindOpen(rows, tenant, fingerprint);
    if open.None? then 0 else rows[open.value].alertCount
  }

  lemma OpenIsUnique(rows: seq<IncidentRow>, tenant: TenantId, fingerprint: string, i: nat)
    requires UniqueOpen(rows) && i < |rows| && IsOpenFor(rows[i], tenant, fingerprint)
    ensures FindOpen(rows, tenant, fingerprint) == Some(i)
  {
  }

  lemma OpenCountIs(rows: seq<IncidentRow>, tenant: TenantId, fingerprint: string, i: nat)
    requires UniqueOpen(rows) && i < |rows| && IsOpenFor(rows[i], tenant, fingerprint)
    ensures OpenCount(rows, tenant, fingerprint) == rows[i].alertCount
  {
    OpenIsUnique(rows, tenant, fingerprint, i);
  }

  /** Placing an alert adds one to its own fingerprint's open incident and nothing to
      any other's. */
  lemma PlaceAddsOne(incidents: seq<IncidentRow>, counters: map<TenantId, int>, a: Alert,
                     config: TenantConfig, now: Time, size: Sizer, tenant: TenantId, fingerprint: string)
    requires UniqueOpen(incidents)
    ensures OpenCount(Place(incidents, counters, a, config, now, size).incidents, tenant, fingerprint)
         == OpenCount(incidents, tenant, fingerprint)
            + if a.tenant == tenant && a.fingerprint == fingerprint then 1 else 0
  {
    var p := Place(incidents, counters, a, config, now, size);
    PlaceKeepsUniqueOpen(incidents, counters, a, config, now, size);
    if a.tenant == tenant && a.fingerprint == fingerprint {
      OpenCountIs(p.incidents, tenant, fingerprint, p.id);
    } else {
      var open := FindOpen(incidents, tenant, fingerprint);
      if open.Some? {
        OpenCountIs(p.incidents, tenant, fingerprint, open.value);
      } else {
        forall i | 0 <= i < |p.incidents| ensures !IsOpenFor(p.incidents[i], tenant, fingerprint) {
          if i < |incidents| { assert !IsOpenFor(incidents[i], tenant, fingerprint); }
        }
        assert FindOpen(p.incidents, tenant, fingerprint).None?;
      }
    }
  }
}
