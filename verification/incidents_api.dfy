/** The requests that drive the clock by hand, each one transaction. */
module IncidentsApi {
  import opened Wrappers
  import opened Model
  import opened SlaPolicy
  import opened Sla
  import opened SlaRuns
  import opened Tables
  import opened Grouping
  import opened TableLaws
  import opened ExactlyOnce

  datatype Request =
    | Update(id: nat, assigns: bool, severity: Option<int>, status: Option<Status>)
    | Bulk(ids: seq<nat>, bulkAssigns: bool, bulkStatus: Option<Status>)
    | AddComment(caseId: nat, byStaff: bool)

  function PolicyOf(db: Db, tenant: TenantId): seq<SlaRow> {
    if tenant in db.tenants then db.tenants[tenant].policy else []
  }

  // One case edited, if it exists.
  function EditRow(incidents: seq<IncidentRow>, id: nat, step: Step, now: Time): seq<IncidentRow> {
    if id < |incidents| then incidents[id := incidents[id].(clock := ApplyStep(incidents[id].clock, step, now))]
    else incidents
  }

  function EditRows(incidents: seq<IncidentRow>, ids: seq<nat>, step: Step, now: Time): seq<IncidentRow> {
    if ids == [] then incidents
    else EditRow(EditRows(incidents, ids[..|ids| - 1], step, now), ids[|ids| - 1], step, now)
  }

  function StepOf(db: Db, r: Request): Step {
    match r
    case Update(id, assigns, severity, status) =>
      Step.Edit(assigns, severity, status, if id < |db.incidents| then PolicyOf(db, db.incidents[id].tenant) else [])
    case Bulk(_, assigns, status) => Step.Edit(assigns, None, status, [])
    case AddComment(_, byStaff) => Step.Comment(byStaff)
  }

  function IdsOf(r: Request): seq<nat> {
    match r
    case Update(id, _, _, _) => [id]
    case Bulk(ids, _, _) => ids
    case AddComment(id, _) => [id]
  }

  // The commit is refused, and nothing changes, when the open-fingerprint index would break.
  function Served(db: Db, r: Request, now: Time): Db {
    var edited := EditRows(db.incidents, IdsOf(r), StepOf(db, r), now);
    if UniqueOpen(edited) then db.(incidents := edited) else db
  }

  // The open-fingerprint index refuses the commit.
  predicate Refused(db: Db, r: Request, now: Time) {
    !UniqueOpen(EditRows(db.incidents, IdsOf(r), StepOf(db, r), now))
  }

  // ---- the handlers -----------------------------------------------------------

  method UpdateIncident(db: Database, id: nat, assigns: bool, severity: Option<int>, status: Option<Status>, now: Time)
      returns (ok: bool)
    modifies db`incidents
    ensures db.State() == Served(old(db.State()), Update(id, assigns, severity, status), now)
    ensures ok <==>
      id < |old(db.incidents)| && !Refused(old(db.State()), Update(id, assigns, severity, status), now)
  {
    if id >= |db.incidents| {
      EditsOne(db.incidents, id, StepOf(db.State(), Update(id, assigns, severity, status)), now);
      return false;
    }
    ghost var before := db.State();
    var incident := new Incident(db.incidents[id]);
    var policy := PolicyOf(db.State(), incident.tenant);
    EditClock(incident, assigns, severity, status, policy, now);
    var edited := db.incidents[id := incident.Row()];
    EditsOne(before.incidents, id, StepOf(before, Update(id, assigns, severity, status)), now);
    ok := UniqueOpen(edited);
    if ok { db.incidents := edited; }
  }

  // One case of a bulk request, loaded, edited and ready to be written back.
  method BulkEdit(before: IncidentRow, assigns: bool, status: Option<Status>, now: Time) returns (row: IncidentRow,
      moved: bool)
    ensures row == before.(clock := ApplyStep(before.clock, Step.Edit(assigns, None, status, []), now))
    ensures moved <==> status.Some? && status.value != before.clock.status
  {
    var incident := new Incident(before);
    moved := status.Some? && status.value != incident.status;
    EditClock(incident, assigns, None, status, [], now);
    row := incident.Row();
  }

  // Whether the last id of a selection is reported as updated: its case exists, and
  // something was set for it or its status moved, at its turn.
  predicate LastChanges(incidents: seq<IncidentRow>, ids: seq<nat>, touches: bool, assigns: bool,
      status: Option<Status>, now: Time)
    requires ids != []
  {
    var rows := EditRows(incidents, ids[..|ids| - 1], Step.Edit(assigns, None, status, []), now);
    var id := ids[|ids| - 1];
    id < |rows| && (touches || (status.Some? && status.value != rows[id].clock.status))
  }

  // The ids of a selection reported as updated, or as skipped: each id is one or the other.
  function Reported(incidents: seq<IncidentRow>, ids: seq<nat>, touches: bool, assigns: bool, status: Option<Status>,
      now: Time, changed: bool): seq<nat>
  {
    if ids == [] then []
    else
      Reported(incidents, ids[..|ids| - 1], touches, assigns, status, now, changed)
      + if LastChanges(incidents, ids, touches, assigns, status, now) == changed then [ids[|ids| - 1]] else []
  }

  lemma NothingReported(incidents: seq<IncidentRow>, touches: bool, assigns: bool, status: Option<Status>, now: Time)
    ensures EditRows(incidents, [], Step.Edit(assigns, None, status, []), now) == incidents
    ensures forall changed :: Reported(incidents, [], touches, assigns, status, now, changed) == []
  {
  }

  lemma OneMoreReported(incidents: seq<IncidentRow>, ids: seq<nat>, i: nat, touches: bool, assigns: bool,
      status: Option<Status>, now: Time)
    requires i < |ids|
    ensures var step := Step.Edit(assigns, None, status, []);
      EditRows(incidents, ids[..i + 1], step, now)
      == EditRow(EditRows(incidents, ids[..i], step, now), ids[i], step, now)
    ensures forall changed ::
      Reported(incidents, ids[..i + 1], touches, assigns, status, now, changed)
      == Reported(incidents, ids[..i], touches, assigns, status, now, changed)
         + if LastChanges(incidents, ids[..i + 1], touches, assigns, status, now) == changed then [ids[i]] else []
  {
    assert ids[..i + 1][..i] == ids[..i];
  }

  /** `touches` says that the assignee or the classification is set, `assigns` that the
      assignee is set to somebody. */
  method BulkUpdate(db: Database, ids: seq<nat>, touches: bool, assigns: bool, status: Option<Status>, now: Time)
      returns (updated: seq<nat>, skipped: seq<nat>, ok: bool)
    requires assigns ==> touches
    modifies db`incidents
    ensures db.State() == Served(old(db.State()), Bulk(ids, assigns, status), now)
    ensures updated == Reported(old(db.incidents), ids, touches, assigns, status, now, true)
    ensures skipped == Reported(old(db.incidents), ids, touches, assigns, status, now, false)
    ensures ok <==> !Refused(old(db.State()), Bulk(ids, assigns, status), now)
  {
    hide ApplyStep, UniqueOpen, EditRows, Reported;
    NothingReported(db.incidents, touches, assigns, status, now);
    updated, skipped := [], [];
    var edited := db.incidents;
    ghost var step := Step.Edit(assigns, None, status, []);
    for i := 0 to |ids|
      invariant db.incidents == old(db.incidents)
      invariant edited == EditRows(db.incidents, ids[..i], step, now)
      invariant |edited| == |db.incidents|
      invariant updated == Reported(db.incidents, ids[..i], touches, assigns, status, now, true)
      invariant skipped == Reported(db.incidents, ids[..i], touches, assigns, status, now, false)
    {
      OneMoreReported(db.incidents, ids, i, touches, assigns, status, now);
      assert ids[..i + 1][..i] == ids[..i];
      var id := ids[i];
      if id >= |edited| {
        skipped := skipped + [id];
        continue;
      }
      var row, moved := BulkEdit(edited[id], assigns, status, now);
      edited := edited[id := row];
      if touches || moved { updated := updated + [id]; } else { skipped := skipped + [id]; }
    }
    assert ids[..|ids|] == ids;
    ok := UniqueOpen(edited);
    if ok { db.incidents := edited; }
  }

  method PostComment(db: Database, id: nat, byStaff: bool, now: Time) returns (ok: bool)
    requires UniqueOpen(db.incidents)
    modifies db`incidents
    ensures db.State() == Served(old(db.State()), AddComment(id, byStaff), now)
    ensures ok <==> id < |old(db.incidents)|
  {
    EditsOne(db.incidents, id, Step.Comment(byStaff), now);
    if id >= |db.incidents| { return false; }
    var incident := new Incident(db.incidents[id]);
    if byStaff {
      var _ := MarkFirstResponse(incident, now);
    }
    db.incidents := db.incidents[id := incident.Row()];
    ok := true;
  }

  lemma EditsOne(incidents: seq<IncidentRow>, id: nat, step: Step, now: Time)
    ensures EditRows(incidents, [id], step, now) == EditRow(incidents, id, step, now)
  {
    assert [id][..0] == [];
  }

  // ---- what a request can and cannot touch ------------------------------------

  // Everything but the clocks is as before, and of these the first sighting is too.
  ghost predicate OnlyClocksDiffer(before: seq<IncidentRow>, after: seq<IncidentRow>) {
    && |after| == |before|
    && forall i | 0 <= i < |before| ::
         after[i] == before[i].(clock := after[i].clock) && after[i].clock.firstSeen == before[i].clock.firstSeen
  }

  lemma {:induction false} EditRowsKeeps(incidents: seq<IncidentRow>, ids: seq<nat>, step: Step, now: Time)
    requires AllCoupled(incidents) && !step.Attach?
    ensures OnlyClocksDiffer(incidents, EditRows(incidents, ids, step, now))
    ensures AllCoupled(EditRows(incidents, ids, step, now))
  {
    if ids != [] {
      EditRowsKeeps(incidents, ids[..|ids| - 1], step, now);
      var mid, id := EditRows(incidents, ids[..|ids| - 1], step, now), ids[|ids| - 1];
      if id < |mid| {
        StepKeepsCoupling(mid[id].clock, step, now);
        if step.Edit? { EditTable(mid[id].clock, step, now); }
      }
    }
  }

  /** A selection without repeats: each listed case takes the step once, and no other
      case is touched. */
  lemma {:induction false} EachIsEditedOnce(incidents: seq<IncidentRow>, ids: seq<nat>, step: Step, now: Time, i: nat)
    requires Distinct(ids) && i < |incidents|
    ensures var after := EditRows(incidents, ids, step, now);
      && |after| == |incidents|
      && after[i] == if i in ids then incidents[i].(clock := ApplyStep(incidents[i].clock, step, now)) else incidents[i]
  {
    if ids != [] {
      var front, id := ids[..|ids| - 1], ids[|ids| - 1];
      EachIsEditedOnce(incidents, front, step, now, i);
      assert ids == front + [id] && id !in front;
    }
  }

  lemma {:induction false} ClocksDoNotNumber(before: seq<IncidentRow>, after: seq<IncidentRow>, tenant: TenantId)
    requires OnlyClocksDiffer(before, after)
    ensures CountTenant(after, tenant) == CountTenant(before, tenant)
  {
    if before != [] {
      ClocksDoNotNumber(before[..|before| - 1], after[..|after| - 1], tenant);
    }
  }

  lemma ClocksKeepNumbered(before: seq<IncidentRow>, after: seq<IncidentRow>, counters: map<TenantId, int>)
    requires OnlyClocksDiffer(before, after) && Numbered(before, counters)
    ensures Numbered(after, counters)
  {
    forall i | 0 <= i < |after| ensures after[i].number == 1 + CountTenant(after[..i], after[i].tenant) {
      ClocksDoNotNumber(before[..i], after[..i], after[i].tenant);
    }
    forall t: TenantId ensures NextNumber(counters, t) == 1 + CountTenant(after, t) {
      ClocksDoNotNumber(before, after, t);
    }
  }

  // Tables that differ in nothing but the clocks of cases.
  lemma ClocksKeepTables(db: Db, after: seq<IncidentRow>)
    requires TablesOk(db) && OnlyClocksDiffer(db.incidents, after) && UniqueOpen(after) && AllCoupled(after)
    ensures TablesOk(db.(incidents := after))
    ensures CountsCover(db) ==> CountsCover(db.(incidents := after))
  {
    ClocksKeepNumbered(db.incidents, after, db.counters);
  }

  lemma ClocksKeepExact(db: Db, after: seq<IncidentRow>)
    requires OnlyClocksDiffer(db.incidents, after) && Exact(db)
    ensures Exact(db.(incidents := after))
  {
  }

  /** No request ever changes a count, a summary or a piece of evidence: committed or
      refused, every row is as it was but for its clock, and the tables stay sound
      and exact. */
  lemma RequestKeepsTables(db: Db, r: Request, now: Time)
    requires TablesOk(db)
    ensures TablesOk(Served(db, r, now))
    ensures OnlyClocksDiffer(db.incidents, Served(db, r, now).incidents)
    ensures Served(db, r, now) == db.(incidents := Served(db, r, now).incidents)
    ensures CountsCover(db) ==> CountsCover(Served(db, r, now))
    ensures Exact(db) ==> Exact(Served(db, r, now))
  {
    var edited := EditRows(db.incidents, IdsOf(r), StepOf(db, r), now);
    EditRowsKeeps(db.incidents, IdsOf(r), StepOf(db, r), now);
    assert db.(incidents := db.incidents) == db;
    if UniqueOpen(edited) {
      ClocksKeepTables(db, edited);
      if Exact(db) { ClocksKeepExact(db, edited); }
    }
  }

  /** A single update is refused exactly when it reopens a closed case whose
      fingerprint already has an open one. */
  lemma RefusedExactly(db: Db, id: nat, assigns: bool, severity: Option<int>, status: Option<Status>, now: Time)
    requires TablesOk(db) && id < |db.incidents|
    ensures var r := Update(id, assigns, severity, status);
      Refused(db, r, now) <==>
        && IsClosed(db.incidents[id].clock.status)
        && status.Some? && IsOpen(status.value)
        && FindOpen(db.incidents, db.incidents[id].tenant, db.incidents[id].fingerprint).Some?
  {
    hide EditRows, ApplyStep, FindOpen;
    var r := Update(id, assigns, severity, status);
    var step := StepOf(db, r);
    var row := db.incidents[id];
    EditsOne(db.incidents, id, step, now);
    EditTable(row.clock, step, now);
    var after := EditRow(db.incidents, id, step, now);
    var open := FindOpen(db.incidents, row.tenant, row.fingerprint);
    assert forall i | 0 <= i < |after| && i != id :: after[i] == db.incidents[i];
    if IsClosed(row.clock.status) && status.Some? && IsOpen(status.value) && open.Some? {
      var j := open.value;
      assert IsOpenFor(after[j], row.tenant, row.fingerprint) && IsOpenFor(after[id], row.tenant, row.fingerprint);
      if j < id {
        assert IsOpenFor(after[j], after[id].tenant, after[id].fingerprint);
      } else {
        assert IsOpenFor(after[id], after[j].tenant, after[j].fingerprint);
      }
    } else {
      assert UniqueOpen(after);
    }
  }

  lemma {:induction false} StatusAfter(incidents: seq<IncidentRow>, ids: seq<nat>, assigns: bool,
      status: Option<Status>,
      now: Time, i: nat)
    requires AllCoupled(incidents) && i < |incidents|
    ensures var after := EditRows(incidents, ids, Step.Edit(assigns, None, status, []), now);
      && |after| == |incidents|
      && after[i].tenant == incidents[i].tenant && after[i].fingerprint == incidents[i].fingerprint
      && after[i].clock.status == if status.Some? && i in ids then status.value else incidents[i].clock.status
  {
    if ids != [] {
      var front, id, step := ids[..|ids| - 1], ids[|ids| - 1], Step.Edit(assigns, None, status, []);
      StatusAfter(incidents, front, assigns, status, now, i);
      EditRowsKeeps(incidents, front, step, now);
      var mid := EditRows(incidents, front, step, now);
      if id < |mid| { EditTable(mid[id].clock, step, now); }
      assert ids == front + [id];
    }
  }

  // Open once the selection has its new status.
  predicate OpenAfter(incidents: seq<IncidentRow>, ids: seq<nat>, i: nat)
    requires i < |incidents|
  {
    i in ids || IsOpen(incidents[i].clock.status)
  }

  // Two cases of one fingerprint that would both be open.
  ghost predicate TwoWouldBeOpen(incidents: seq<IncidentRow>, ids: seq<nat>) {
    exists i, j :: 0 <= i < j < |incidents|
      && incidents[i].tenant == incidents[j].tenant && incidents[i].fingerprint == incidents[j].fingerprint
      && OpenAfter(incidents, ids, i) && OpenAfter(incidents, ids, j)
  }

  // A row before and after a selection takes a status, if it takes one.
  predicate TakesStatus(before: IncidentRow, after: IncidentRow, selected: bool, status: Option<Status>) {
    && after.tenant == before.tenant && after.fingerprint == before.fingerprint
    && after.clock.status == if status.Some? && selected then status.value else before.clock.status
  }

  lemma ClashExactly(before: seq<IncidentRow>, after: seq<IncidentRow>, ids: seq<nat>, status: Option<Status>)
    requires UniqueOpen(before) && |after| == |before|
    requires forall i | 0 <= i < |before| :: TakesStatus(before[i], after[i], i in ids, status)
    ensures !UniqueOpen(after) <==> status.Some? && IsOpen(status.value) && TwoWouldBeOpen(before, ids)
  {
    if !UniqueOpen(after) {
      var i, j :| 0 <= i < j < |after| && IsOpen(after[j].clock.status)
        && IsOpenFor(after[i], after[j].tenant, after[j].fingerprint);
      assert TakesStatus(before[i], after[i], i in ids, status) && TakesStatus(before[j], after[j], j in ids, status);
      assert status.Some? && IsOpen(status.value) by {
        assert IsOpen(before[j].clock.status) ==> !IsOpenFor(before[i], before[j].tenant, before[j].fingerprint);
      }
      assert OpenAfter(before, ids, i) && OpenAfter(before, ids, j);
    }
    if status.Some? && IsOpen(status.value) && TwoWouldBeOpen(before, ids) {
      var i, j :| 0 <= i < j < |before|
        && before[i].tenant == before[j].tenant && before[i].fingerprint == before[j].fingerprint
        && OpenAfter(before, ids, i) && OpenAfter(before, ids, j);
      assert TakesStatus(before[i], after[i], i in ids, status) && TakesStatus(before[j], after[j], j in ids, status);
      assert IsOpenFor(after[i], after[j].tenant, after[j].fingerprint);
    }
  }

  /** A bulk request is refused, whole, exactly when it sets an open status and leaves two
      cases of one fingerprint open, selected or open already. */
  lemma BulkRefusedExactly(db: Db, ids: seq<nat>, assigns: bool, status: Option<Status>, now: Time)
    requires TablesOk(db)
    ensures Refused(db, Bulk(ids, assigns, status), now) <==>
      status.Some? && IsOpen(status.value) && TwoWouldBeOpen(db.incidents, ids)
  {
    var after := EditRows(db.incidents, ids, Step.Edit(assigns, None, status, []), now);
    EditRowsKeeps(db.incidents, ids, Step.Edit(assigns, None, status, []), now);
    forall i | 0 <= i < |after| ensures TakesStatus(db.incidents[i], after[i], i in ids, status) {
      StatusAfter(db.incidents, ids, assigns, status, now, i);
    }
    ClashExactly(db.incidents, after, ids, status);
  }

  // ---- what a request does, on the tables -------------------------------------

  // Everything but one case is as it was, and of that one all but its clock.
  ghost predicate OnlyCase(before: Db, after: Db, id: nat) {
    && after == before.(incidents := after.incidents)
    && |after.incidents| == |before.incidents|
    && (forall i | 0 <= i < |before.incidents| && i != id :: after.incidents[i] == before.incidents[i])
    && (id < |before.incidents| ==>
          after.incidents[id] == before.incidents[id].(clock := after.incidents[id].clock))
  }

  // The answer of a case that is answered now unless it was before.
  function AnsweredBy(c: Clock, now: Time): Option<Time> {
    if c.firstResponseAt.Some? then c.firstResponseAt else Some(now)
  }

  /** A staff comment is the first response to a case that has none, and changes nothing
      else; a comment of the client's changes nothing at all. */
  lemma CommentAnswers(db: Db, id: nat, now: Time)
    requires TablesOk(db) && id < |db.incidents|
    ensures var after := Served(db, AddComment(id, true), now);
      && OnlyCase(db, after, id)
      && after.incidents[id].clock
           == db.incidents[id].clock.(firstResponseAt := AnsweredBy(db.incidents[id].clock, now))
    ensures Served(db, AddComment(id, false), now) == db
  {
    EditsOne(db.incidents, id, Step.Comment(true), now);
    EditsOne(db.incidents, id, Step.Comment(false), now);
    var after := EditRow(db.incidents, id, Step.Comment(true), now);
    forall i, j | 0 <= i < j < |after| && IsOpen(after[j].clock.status)
      ensures !IsOpenFor(after[i], after[j].tenant, after[j].fingerprint)
    {
      assert !IsOpenFor(db.incidents[i], db.incidents[j].tenant, db.incidents[j].fingerprint);
    }
    var same := EditRow(db.incidents, id, Step.Comment(false), now);
    assert db.incidents[id].(clock := db.incidents[id].clock) == db.incidents[id];
    assert same == db.incidents;
  }

  // What was asked of a case is so: its status and severity, and the answer if it was
  // assigned or its status changed.
  ghost predicate TookEffect(before: Clock, after: Clock, assigns: bool, severity: Option<int>, status: Option<Status>,
      now: Time)
  {
    && after.status == (if status.Some? then status.value else before.status)
    && after.severity == (if severity.Some? then severity.value else before.severity)
    && after.firstResponseAt ==
         (if assigns || (status.Some? && status.value != before.status) then AnsweredBy(before, now)
          else before.firstResponseAt)
  }

  /** An update that is not refused does what it asks of its case and touches no other. */
  lemma UpdateTakesEffect(db: Db, id: nat, assigns: bool, severity: Option<int>, status: Option<Status>, now: Time)
    requires TablesOk(db) && id < |db.incidents|
    requires var r := Update(id, assigns, severity, status); !Refused(db, r, now)
    ensures var after := Served(db, Update(id, assigns, severity, status), now);
      && OnlyCase(db, after, id)
      && TookEffect(db.incidents[id].clock, after.incidents[id].clock, assigns, severity, status, now)
  {
    var step := StepOf(db, Update(id, assigns, severity, status));
    EditsOne(db.incidents, id, step, now);
    EditTable(db.incidents[id].clock, step, now);
  }

  lemma {:induction false} EditsTakeEffect(incidents: seq<IncidentRow>, ids: seq<nat>, assigns: bool,
      status: Option<Status>, now: Time, i: nat)
    requires AllCoupled(incidents) && i < |incidents|
    ensures var after := EditRows(incidents, ids, Step.Edit(assigns, None, status, []), now);
      && |after| == |incidents|
      && (if i in ids then
            && after[i] == incidents[i].(clock := after[i].clock)
            && TookEffect(incidents[i].clock, after[i].clock, assigns, None, status, now)
          else after[i] == incidents[i])
    decreases |ids|
  {
    if ids != [] {
      var front, id, step := ids[..|ids| - 1], ids[|ids| - 1], Step.Edit(assigns, None, status, []);
      EditsTakeEffect(incidents, front, assigns, status, now, i);
      EditRowsKeeps(incidents, front, step, now);
      assert ids == front + [id];
      var mid := EditRows(incidents, front, step, now);
      if id == i { EditTable(mid[i].clock, step, now); }
    }
  }

  /** A bulk request that is not refused does what it asks of every listed case, listed once
      or more, and touches no other. */
  lemma BulkTakesEffect(db: Db, ids: seq<nat>, assigns: bool, status: Option<Status>, now: Time, i: nat)
    requires TablesOk(db) && i < |db.incidents| && !Refused(db, Bulk(ids, assigns, status), now)
    ensures var after := Served(db, Bulk(ids, assigns, status), now);
      && after == db.(incidents := after.incidents) && |after.incidents| == |db.incidents|
      && (if i in ids then
            && after.incidents[i] == db.incidents[i].(clock := after.incidents[i].clock)
            && TookEffect(db.incidents[i].clock, after.incidents[i].clock, assigns, None, status, now)
          else after.incidents[i] == db.incidents[i])
  {
    EditsTakeEffect(db.incidents, ids, assigns, status, now, i);
  }

  // ---- what a bulk request reports --------------------------------------------

  // A listed case that something is done to: it exists, and a field was set for it or its
  // status differs from the one asked for.
  predicate IsTouched(incidents: seq<IncidentRow>, id: nat, touches: bool, status: Option<Status>) {
    id < |incidents| && (touches || (status.Some? && status.value != incidents[id].clock.status))
  }

  /** In a selection without repeats an id is reported as updated exactly when something is
      done to its case, and as skipped exactly when nothing is; each once. */
  lemma {:induction false} ReportedExactly(incidents: seq<IncidentRow>, ids: seq<nat>, touches: bool, assigns: bool,
      status: Option<Status>, now: Time, changed: bool, id: nat)
    requires Distinct(ids) && AllCoupled(incidents)
    ensures var listed := Reported(incidents, ids, touches, assigns, status, now, changed);
      && (id in listed <==> id in ids && IsTouched(incidents, id, touches, status) == changed)
      && Distinct(listed)
    decreases |ids|
  {
    if ids != [] {
      var front, last := ids[..|ids| - 1], ids[|ids| - 1];
      assert ids == front + [last] && last !in front;
      ReportedExactly(incidents, front, touches, assigns, status, now, changed, id);
      ReportedExactly(incidents, front, touches, assigns, status, now, changed, last);
      EditRowsKeeps(incidents, front, Step.Edit(assigns, None, status, []), now);
      if last < |incidents| {
        EachIsEditedOnce(incidents, front, Step.Edit(assigns, None, status, []), now, last);
      }
    }
  }
}
