/** The SLA clock: what each operation does to an incident, and when it is in breach. */
module Sla {
  import opened Wrappers
  import opened Model
  import opened SlaPolicy

  // ---- the operations on values -----------------------------------------------

  // Whole seconds from one instant to another; a clock that went back counts nothing.
  function HeldSeconds(from: Time, to: Time): int {
    if to <= from then 0 else (to - from) / SECOND
  }

  function Deadline(anchor: Time, minutes: int, pausedSeconds: int): Time {
    anchor + minutes * MINUTE + pausedSeconds * SECOND
  }

  function WithDeadlines(c: Clock, band: Option<Band>, pausedSeconds: int): Clock {
    if band.None? then c.(respondBy := None, resolveBy := None)
    else c.(respondBy := Some(Deadline(c.firstSeen, band.value.respondMinutes, pausedSeconds)),
            resolveBy := Some(Deadline(c.firstSeen, band.value.resolveMinutes, pausedSeconds)))
  }

  function Created(c: Clock, band: Option<Band>): Clock { WithDeadlines(c, band, 0) }

  // The clock of a case opened by an alert.
  function FreshClock(at: Time, level: int, policy: seq<SlaRow>): Clock {
    Created(Clock(New, level, at, None, None, None, 0, None, None), BandFor(policy, level))
  }

  function Escalated(c: Clock, band: Option<Band>): Clock {
    if c.firstResponseAt.Some? || band.None? then c else WithDeadlines(c, band, c.pausedSeconds)
  }

  function Marked(c: Clock, now: Time): Clock {
    if c.firstResponseAt.Some? then c else c.(firstResponseAt := Some(now))
  }

  function Paused(c: Clock, now: Time): Clock {
    if c.pausedAt.Some? then c else c.(pausedAt := Some(now))
  }

  function Later(deadline: Option<Time>, seconds: int): Option<Time> {
    if deadline.None? then None else Some(deadline.value + seconds * SECOND)
  }

  function Resumed(c: Clock, now: Time): Clock {
    if c.pausedAt.None? then c
    else
      var held := HeldSeconds(c.pausedAt.value, now);
      c.(respondBy := Later(c.respondBy, held), resolveBy := Later(c.resolveBy, held),
         pausedSeconds := c.pausedSeconds + held, pausedAt := None)
  }

  function Transition(c: Clock, to: Status, now: Time): Clock {
    var clocked :=
      if c.status == Pending && to != Pending then Resumed(c, now)
      else if to == Pending && c.status != Pending then Paused(c, now)
      else c;
    var stamped :=
      if IsClosed(to) then Resumed(clocked.(closedAt := Some(now)), now)
      else if IsClosed(c.status) then clocked.(closedAt := None)
      else clocked;
    (if to != New then Marked(stamped, now) else stamped).(status := to)
  }

  // ---- the same operations on the object --------------------------------------

  method ApplyDeadlines(incident: Incident, band: Option<Band>, pausedSeconds: int)
    modifies incident`slaRespondBy, incident`slaResolveBy
    ensures incident.SlaPart() == WithDeadlines(old(incident.SlaPart()), band, pausedSeconds)
    ensures incident.slaRespondBy == if band.None? then None
      else Some(incident.firstSeen + (band.value.respondMinutes * 60 + pausedSeconds) * 1_000_000)
    ensures incident.slaResolveBy == if band.None? then None
      else Some(incident.firstSeen + (band.value.resolveMinutes * 60 + pausedSeconds) * 1_000_000)
  {
    if band.None? {
      incident.slaRespondBy, incident.slaResolveBy := None, None;
    } else {
      var held := pausedSeconds * SECOND;
      incident.slaRespondBy := Some(incident.firstSeen + band.value.respondMinutes * MINUTE + held);
      incident.slaResolveBy := Some(incident.firstSeen + band.value.resolveMinutes * MINUTE + held);
    }
  }

  method ApplyOnCreate(incident: Incident, band: Option<Band>)
    modifies incident`slaRespondBy, incident`slaResolveBy
    ensures incident.SlaPart() == Created(old(incident.SlaPart()), band)
  {
    ApplyDeadlines(incident, band, 0);
  }

  method ApplyOnEscalation(incident: Incident, band: Option<Band>)
    modifies incident`slaRespondBy, incident`slaResolveBy
    ensures incident.SlaPart() == Escalated(old(incident.SlaPart()), band)
  {
    if incident.firstResponseAt.Some? || band.None? { return; }
    ApplyDeadlines(incident, band, incident.slaPausedSeconds);
  }

  method MarkFirstResponse(incident: Incident, now: Time) returns (first: bool)
    modifies incident`firstResponseAt
    ensures incident.SlaPart() == Marked(old(incident.SlaPart()), now)
    ensures first <==> old(incident.firstResponseAt).None?
  {
    if incident.firstResponseAt.Some? { return false; }
    incident.firstResponseAt := Some(now);
    return true;
  }

  method Pause(incident: Incident, now: Time)
    modifies incident`slaPausedAt
    ensures incident.SlaPart() == Paused(old(incident.SlaPart()), now)
    ensures incident.slaPausedAt == if old(incident.slaPausedAt).Some? then old(incident.slaPausedAt) else Some(now)
  {
    if incident.slaPausedAt.None? { incident.slaPausedAt := Some(now); }
  }

  method Resume(incident: Incident, now: Time) returns (held: int)
    modifies incident`slaRespondBy, incident`slaResolveBy, incident`slaPausedAt, incident`slaPausedSeconds
    ensures incident.SlaPart() == Resumed(old(incident.SlaPart()), now)
    ensures held == incident.slaPausedSeconds - old(incident.slaPausedSeconds)
    ensures held == if old(incident.slaPausedAt).Some? && old(incident.slaPausedAt).value < now
      then (now - old(incident.slaPausedAt).value) / 1_000_000 else 0
  {
    if incident.slaPausedAt.None? { return 0; }
    held := HeldSeconds(incident.slaPausedAt.value, now);
    if incident.slaRespondBy.Some? {
      incident.slaRespondBy := Some(incident.slaRespondBy.value + held * SECOND);
    }
    if incident.slaResolveBy.Some? {
      incident.slaResolveBy := Some(incident.slaResolveBy.value + held * SECOND);
    }
    incident.slaPausedSeconds := incident.slaPausedSeconds + held;
    incident.slaPausedAt := None;
  }

  /** What the audit trail is told about one status change. */
  datatype Detail = Detail(from: Status, to: Status, held: Option<int>, paused: bool, firstResponse: bool)

  method ApplyStatusTransition(incident: Incident, to: Status, now: Time) returns (detail: Detail)
    modifies incident`status, incident`slaRespondBy, incident`slaResolveBy, incident`slaPausedAt,
             incident`slaPausedSeconds, incident`closedAt, incident`firstResponseAt
    ensures incident.SlaPart() == Transition(old(incident.SlaPart()), to, now)
    ensures detail.from == old(incident.status) && detail.to == to
    ensures detail.paused <==> to == Pending && old(incident.status) != Pending
    ensures old(incident.slaPausedAt.Some? <==> incident.status == Pending) ==>
      (detail.held.Some? <==> old(incident.status) == Pending && to != Pending)
    ensures detail.firstResponse <==> old(incident.firstResponseAt).None? && incident.firstResponseAt.Some?
    ensures old(incident.slaPausedAt.Some? <==> incident.status == Pending) ==>
      (if detail.held.Some? then detail.held.value else 0) == incident.slaPausedSeconds - old(incident.slaPausedSeconds)
    ensures to == Resolved || to == FalsePositive ==>
      && incident.closedAt == Some(now) && incident.slaPausedAt.None?
      && incident.slaPausedSeconds == old(incident.slaPausedSeconds)
           + (if old(incident.slaPausedAt).Some? then HeldSeconds(old(incident.slaPausedAt).value, now) else 0)
    ensures to != Resolved && to != FalsePositive ==>
      incident.closedAt ==
        (if old(incident.status == Resolved || incident.status == FalsePositive) then None else old(incident.closedAt))
  {
    var from := incident.status;
    detail := Detail(from, to, None, false, false);
    if from == Pending && to != Pending {
      var held := Resume(incident, now);
      detail := detail.(held := Some(held));
    } else if to == Pending && from != Pending {
      Pause(incident, now);
      detail := detail.(paused := true);
    }
    if IsClosed(to) {
      incident.closedAt := Some(now);
      if incident.slaPausedAt.Some? {
        var held := Resume(incident, now);
        detail := detail.(held := Some(held));
      }
    } else if IsClosed(from) {
      incident.closedAt := None;
    }
    if to != New {
      var first := MarkFirstResponse(incident, now);
      if first { detail := detail.(firstResponse := true); }
    }
    incident.status := to;
  }

  // ---- breach, derived on every read ------------------------------------------

  predicate ResponseBreached(c: Clock, now: Time) {
    if c.respondBy.None? then false
    else if c.firstResponseAt.Some? then c.firstResponseAt.value > c.respondBy.value
    else if c.pausedAt.Some? then c.pausedAt.value > c.respondBy.value
    else now > c.respondBy.value
  }

  predicate ResolutionBreached(c: Clock, now: Time) {
    if c.resolveBy.None? then false
    else if c.closedAt.Some? then c.closedAt.value > c.resolveBy.value
    else if c.pausedAt.Some? then c.pausedAt.value > c.resolveBy.value
    else now > c.resolveBy.value
  }

  // ---- the steps that drive one incident's clock ------------------------------

  datatype Step =
    | Attach(at: Time, level: int, policy: seq<SlaRow>)
    | Edit(assigns: bool, severity: Option<int>, status: Option<Status>, policy: seq<SlaRow>)
    | Comment(byStaff: bool)

  // A rule level above the severity raises it and asks for a recomputation.
  function Attached(c: Clock, at: Time, level: int, policy: seq<SlaRow>): Clock {
    var seen := c.(firstSeen := Min(c.firstSeen, at));
    if level > c.severity then Escalated(seen.(severity := level), BandFor(policy, level)) else seen
  }

  function Edited(c: Clock, assigns: bool, severity: Option<int>, status: Option<Status>,
                  policy: seq<SlaRow>, now: Time): Clock {
    var marked := if assigns then Marked(c, now) else c;
    var raised := if severity.Some? then marked.(severity := severity.value) else marked;
    if status.None? || status.value == c.status then raised
    else
      var moved := Transition(raised, status.value, now);
      if severity.Some? && severity.value != c.severity then Escalated(moved, BandFor(policy, moved.severity))
      else moved
  }

  function ApplyStep(c: Clock, step: Step, now: Time): Clock {
    match step
    case Attach(at, level, policy) => Attached(c, at, level, policy)
    case Edit(assigns, severity, status, policy) => Edited(c, assigns, severity, status, policy, now)
    case Comment(byStaff) => if byStaff then Marked(c, now) else c
  }

  /** The clock part of one edit, statement by statement. */
  method EditClock(incident: Incident, assigns: bool, severity: Option<int>, status: Option<Status>,
                   policy: seq<SlaRow>, now: Time)
    modifies incident`status, incident`severity, incident`slaRespondBy, incident`slaResolveBy,
             incident`slaPausedAt, incident`slaPausedSeconds, incident`closedAt, incident`firstResponseAt
    ensures incident.SlaPart() == Edited(old(incident.SlaPart()), assigns, severity, status, policy, now)
  {
    var severityChanged := false;
    if assigns {
      var _ := MarkFirstResponse(incident, now);
    }
    if severity.Some? && severity.value != incident.severity {
      severityChanged := true;
      incident.severity := severity.value;
    }
    if status.Some? && status.value != incident.status {
      var _ := ApplyStatusTransition(incident, status.value, now);
      if severityChanged {
        var band := FindBand(policy, incident.severity);
        ApplyOnEscalation(incident, band);
      }
    }
  }
}
