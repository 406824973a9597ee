/** What the SLA clock keeps over every run. */
module SlaRuns {
  // A run is of alerts, edits and comments. It is tracked with its history: when deadlines
  // were last set and from what, and the log of status changes.

  import opened Wrappers
  import opened Model
  import opened SlaPolicy
  import opened Sla

  datatype Change = Change(at: Time, status: Status)

  datatype Tracked = Tracked(clock: Clock, now: Time, anchor: Time, band: Option<Band>, log: seq<Change>)

  function Start(at: Time, level: int, policy: seq<SlaRow>, now: Time): Tracked {
    Tracked(FreshClock(at, level, policy), now, at, BandFor(policy, level), [Change(now, New)])
  }

  // The only steps meant to recompute deadlines: an alert above the severity of an
  // unanswered case, under a policy with a band for it.
  predicate Resets(c: Clock, step: Step) {
    && step.Attach?
    && step.level > c.severity
    && c.firstResponseAt.None?
    && BandFor(step.policy, step.level).Some?
  }

  function Advance(t: Tracked, step: Step, now: Time): Tracked {
    var after := ApplyStep(t.clock, step, now);
    Tracked(after, now,
            if Resets(t.clock, step) then after.firstSeen else t.anchor,
            if Resets(t.clock, step) then BandFor(step.policy, step.level) else t.band,
            if after.status != t.clock.status then t.log + [Change(now, after.status)] else t.log)
  }

  type Timed = (Step, Time)

  function Run(t: Tracked, steps: seq<Timed>): Tracked {
    if steps == [] then t
    else
      var last := steps[|steps| - 1];
      Advance(Run(t, steps[..|steps| - 1]), last.0, last.1)
  }

  // The clock never goes back, from `from` on.
  ghost predicate Monotone(from: Time, steps: seq<Timed>) {
    steps == [] ||
    (Monotone(from, steps[..|steps| - 1]) && EndTime(from, steps[..|steps| - 1]) <= steps[|steps| - 1].1)
  }

  function EndTime(from: Time, steps: seq<Timed>): Time {
    if steps == [] then from else steps[|steps| - 1].1
  }

  lemma {:induction false} MonotoneFromEarlier(from: Time, earlier: Time, steps: seq<Timed>)
    requires Monotone(from, steps) && earlier <= from
    ensures Monotone(earlier, steps)
    ensures from <= EndTime(from, steps) && earlier <= EndTime(earlier, steps)
  {
    if steps != [] {
      MonotoneFromEarlier(from, earlier, steps[..|steps| - 1]);
    }
  }

  // ---- status and clock agree -------------------------------------------------

  ghost predicate Coupled(c: Clock) {
    && (c.pausedAt.Some? <==> c.status == Pending)
    && (c.closedAt.Some? <==> IsClosed(c.status))
    && (c.firstResponseAt.None? ==> c.status == New && c.pausedSeconds == 0)
    && (c.respondBy.Some? <==> c.resolveBy.Some?)
    && c.pausedSeconds >= 0
  }

  /** One status change, field by field, on any coupled clock: the time held is
      counted once whichever branch resumes, and the first response is stamped by
      the first change out of `new`. */
  lemma TransitionTable(c: Clock, to: Status, now: Time)
    requires Coupled(c) && to != c.status
    ensures var d := Transition(c, to, now);
      var held := if c.status == Pending then HeldSeconds(c.pausedAt.value, now) else 0;
      && d.status == to
      && d.pausedAt == (if to == Pending then Some(now) else None)
      && d.closedAt == (if to == Resolved || to == FalsePositive then Some(now) else None)
      && d.pausedSeconds == c.pausedSeconds + held
      && d.respondBy == Later(c.respondBy, held) && d.resolveBy == Later(c.resolveBy, held)
      && d.firstResponseAt == (if c.firstResponseAt.Some? then c.firstResponseAt else Some(now))
      && d.severity == c.severity && d.firstSeen == c.firstSeen
  {
  }

  /** The manual escalation inside an edit never changes a case whose status and
      clock agree: by the time it runs, the case has been answered.  Whatever the
      policy says, the edit does the same. */
  lemma ManualEscalationNeverFires(c: Clock, assigns: bool, severity: Option<int>, status: Option<Status>,
                                   policy: seq<SlaRow>, now: Time)
    requires Coupled(c)
    ensures Edited(c, assigns, severity, status, policy, now) == Edited(c, assigns, severity, status, [], now)
  {
  }

  // One edit, field by field: where the status goes, what that stamps, what it holds.
  lemma EditTable(c: Clock, step: Step, now: Time)
    requires Coupled(c) && step.Edit?
    ensures var d := ApplyStep(c, step, now);
      var to := if step.status.Some? then step.status.value else c.status;
      var held := if c.status == Pending && to != Pending then HeldSeconds(c.pausedAt.value, now) else 0;
      && d.status == to
      && d.pausedAt == (if to == c.status then c.pausedAt else if to == Pending then Some(now) else None)
      && d.closedAt == (if to == c.status then c.closedAt
                        else if to == Resolved || to == FalsePositive then Some(now) else None)
      && d.pausedSeconds == c.pausedSeconds + held
      && d.respondBy == Later(c.respondBy, held) && d.resolveBy == Later(c.resolveBy, held)
      && d.firstResponseAt == (if c.firstResponseAt.Some? then c.firstResponseAt
                               else if step.assigns || to != c.status then Some(now) else None)
      && d.firstSeen == c.firstSeen
      && d.severity == (if step.severity.Some? then step.severity.value else c.severity)
  {
    var marked := if step.assigns then Marked(c, now) else c;
    var raised := if step.severity.Some? then marked.(severity := step.severity.value) else marked;
    if step.status.Some? && step.status.value != c.status {
      TransitionTable(raised, step.status.value, now);
      ManualEscalationNeverFires(c, step.assigns, step.severity, step.status, step.policy, now);
    }
  }

  lemma StepKeepsCoupling(c: Clock, step: Step, now: Time)
    requires Coupled(c)
    ensures Coupled(ApplyStep(c, step, now))
    ensures c.firstResponseAt.Some? ==> ApplyStep(c, step, now).firstResponseAt == c.firstResponseAt
    ensures c.pausedSeconds <= ApplyStep(c, step, now).pausedSeconds
  {
    if step.Edit? {
      EditTable(c, step, now);
    }
  }

  /** In every reachable state the case is paused exactly while pending and closed
      exactly while in a closed status; unanswered means new and never held; and
      once given, the first response time never changes. */
  lemma {:induction false} CouplingOverRun(t: Tracked, steps: seq<Timed>)
    requires Coupled(t.clock)
    ensures Coupled(Run(t, steps).clock)
    ensures t.clock.firstResponseAt.Some? ==> Run(t, steps).clock.firstResponseAt == t.clock.firstResponseAt
    ensures t.clock.pausedSeconds <= Run(t, steps).clock.pausedSeconds
  {
    if steps != [] {
      var front, last := steps[..|steps| - 1], steps[|steps| - 1];
      CouplingOverRun(t, front);
      StepKeepsCoupling(Run(t, front).clock, last.0, last.1);
    }
  }

  // ---- deadline conservation --------------------------------------------------

  ghost predicate Conserved(t: Tracked) {
    if t.band.None? then t.clock.respondBy.None? && t.clock.resolveBy.None?
    else
      && t.clock.respondBy == Some(Deadline(t.anchor, t.band.value.respondMinutes, t.clock.pausedSeconds))
      && t.clock.resolveBy == Some(Deadline(t.anchor, t.band.value.resolveMinutes, t.clock.pausedSeconds))
  }

  lemma StepConserves(t: Tracked, step: Step, now: Time)
    requires Coupled(t.clock) && Conserved(t)
    ensures Conserved(Advance(t, step, now))
  {
    if step.Edit? {
      EditTable(t.clock, step, now);
    }
  }

  /** Both deadlines are absent, or each is the last anchor plus the last band's
      target plus exactly the seconds recorded as held - over any run, even one
      whose clock goes back.  Only creation and an effective escalation move the
      anchor, so a `first_seen` lowered later does not count. */
  lemma {:induction false} DeadlinesConserved(at: Time, level: int, policy: seq<SlaRow>, created: Time,
      steps: seq<Timed>)
    ensures Conserved(Run(Start(at, level, policy, created), steps))
  {
    if steps != [] {
      var front, last := steps[..|steps| - 1], steps[|steps| - 1];
      DeadlinesConserved(at, level, policy, created, front);
      CouplingOverRun(Start(at, level, policy, created), front);
      StepConserves(Run(Start(at, level, policy, created), front), last.0, last.1);
    }
  }

  ghost predicate OrderedBand(band: Option<Band>) {
    band.Some? ==> 0 < band.value.respondMinutes <= band.value.resolveMinutes
  }

  lemma {:induction false} BandStaysOrdered(t: Tracked, steps: seq<Timed>)
    requires OrderedBand(t.band)
    requires forall i | 0 <= i < |steps| :: steps[i].0.Attach? ==> Accepted(steps[i].0.policy)
    ensures OrderedBand(Run(t, steps).band)
  {
    if steps != [] {
      var front, last := steps[..|steps| - 1], steps[|steps| - 1];
      BandStaysOrdered(t, front);
      if last.0.Attach? { BandIsOrdered(last.0.policy, last.0.level); }
    }
  }

  ghost predicate OrderedDeadlines(c: Clock) {
    if c.respondBy.None? then c.resolveBy.None? else c.resolveBy.Some? && c.respondBy.value <= c.resolveBy.value
  }

  lemma ConservedIsOrdered(t: Tracked)
    requires Conserved(t) && OrderedBand(t.band)
    ensures OrderedDeadlines(t.clock)
  {
  }

  /** The response deadline never passes the resolution deadline. */
  lemma RespondBeforeResolve(at: Time, level: int, policy: seq<SlaRow>, created: Time, steps: seq<Timed>)
    requires Accepted(policy)
    requires forall i | 0 <= i < |steps| :: steps[i].0.Attach? ==> Accepted(steps[i].0.policy)
    ensures OrderedDeadlines(Run(Start(at, level, policy, created), steps).clock)
  {
    BandIsOrdered(policy, level);
    DeadlinesConserved(at, level, policy, created, steps);
    BandStaysOrdered(Start(at, level, policy, created), steps);
    ConservedIsOrdered(Run(Start(at, level, policy, created), steps));
  }

  // ---- a first sighting lowered later -----------------------------------------

  // The deadlines are what they would be if computed from the present first sighting.
  ghost predicate MatchesFirstSeen(t: Tracked) {
    t.band.Some? ==>
      && t.clock.respondBy == Some(Deadline(t.clock.firstSeen, t.band.value.respondMinutes, t.clock.pausedSeconds))
      && t.clock.resolveBy == Some(Deadline(t.clock.firstSeen, t.band.value.resolveMinutes, t.clock.pausedSeconds))
  }

  // No alert joins with an earlier time, or the deadlines are computed anew.
  predicate KeepsMatch(c: Clock, step: Step) {
    Resets(c, step) || (step.Attach? ==> step.at >= c.firstSeen)
  }

  // How far the deadlines are known to have come from: never before the present first
  // sighting, for it only moves back.
  ghost predicate AnchorNotBefore(t: Tracked) { Coupled(t.clock) && Conserved(t) && t.clock.firstSeen <= t.anchor }

  /** One step, exactly: the deadlines match the first sighting afterwards if and only if
      the step computes them anew, or there are none, or they matched before and no
      earlier alert joins. */
  lemma MatchExactly(t: Tracked, step: Step, now: Time)
    requires AnchorNotBefore(t)
    ensures AnchorNotBefore(Advance(t, step, now))
    ensures MatchesFirstSeen(Advance(t, step, now)) <==>
      Resets(t.clock, step) || t.band.None? || (MatchesFirstSeen(t) && KeepsMatch(t.clock, step))
  {
    StepKeepsCoupling(t.clock, step, now);
    StepConserves(t, step, now);
    if step.Edit? { EditTable(t.clock, step, now); }
  }

  // The last computation of deadlines in a run, and whether only alerts that are no
  // earlier joined since.
  ghost predicate MatchKept(t: Tracked, steps: seq<Timed>) {
    steps == [] ||
    var c, step := Run(t, steps[..|steps| - 1]), steps[|steps| - 1].0;
    Resets(c.clock, step) || c.band.None? || (MatchKept(t, steps[..|steps| - 1]) && KeepsMatch(c.clock, step))
  }

  /** Over any run from creation the deadlines still match the present first sighting if
      and only if, since they were last computed, no alert joined from before it. */
  lemma {:induction false} MatchKeptExactly(at: Time, level: int, policy: seq<SlaRow>, created: Time, steps: seq<Timed>)
    ensures AnchorNotBefore(Run(Start(at, level, policy, created), steps))
    ensures MatchesFirstSeen(Run(Start(at, level, policy, created), steps)) <==>
      MatchKept(Start(at, level, policy, created), steps)
  {
    if steps != [] {
      var front, last := steps[..|steps| - 1], steps[|steps| - 1];
      MatchKeptExactly(at, level, policy, created, front);
      MatchExactly(Run(Start(at, level, policy, created), front), last.0, last.1);
    }
  }

  // An alert that arrives late: first seen an hour earlier, the deadline where it was.
  lemma LateAlertLeavesDeadlines(policy: seq<SlaRow>)
    requires BandFor(policy, 5).Some?
    ensures var t := Run(Start(HOUR, 5, policy, 0), [(Step.Attach(0, 5, policy), 0)]);
      && t.clock.firstSeen == 0
      && t.clock.respondBy == Some(Deadline(HOUR, BandFor(policy, 5).value.respondMinutes, 0))
      && !MatchesFirstSeen(t)
  {
    RunOfOne(Start(HOUR, 5, policy, 0), (Step.Attach(0, 5, policy), 0));
  }

  // ---- time held, against the log of status changes ---------------------------

  // Seconds charged if every stay in `pending` is rounded down once.
  function HeldInLog(log: seq<Change>): int {
    if |log| < 2 then 0
    else
      var n := |log| - 1;
      HeldInLog(log[..n]) + if log[n - 1].status == Pending then HeldSeconds(log[n - 1].at, log[n].at) else 0
  }

  // Microseconds really spent in completed stays, and how many there were.
  function RealHeld(log: seq<Change>): Time {
    if |log| < 2 then 0
    else
      var n := |log| - 1;
      RealHeld(log[..n]) + if log[n - 1].status == Pending then log[n].at - log[n - 1].at else 0
  }

  function CompletedPauses(log: seq<Change>): nat {
    if |log| < 2 then 0
    else
      var n := |log| - 1;
      CompletedPauses(log[..n]) + if log[n - 1].status == Pending then 1 else 0
  }

  ghost predicate LogMatches(t: Tracked) {
    && t.log != []
    && var last := t.log[|t.log| - 1];
       && last.status == t.clock.status
       && t.clock.pausedAt == (if last.status == Pending then Some(last.at) else None)
       && t.clock.closedAt == (if IsClosed(last.status) then Some(last.at) else None)
       && t.clock.pausedSeconds == HeldInLog(t.log)
  }

  lemma StepKeepsLog(t: Tracked, step: Step, now: Time)
    requires Coupled(t.clock) && LogMatches(t)
    ensures LogMatches(Advance(t, step, now))
  {
    var u := Advance(t, step, now);
    if step.Edit? && u.clock.status != t.clock.status {
      EditTable(t.clock, step, now);
      assert u.log[..|t.log|] == t.log;
    }
  }

  /** The recorded seconds are exactly the stays in `pending` of the status log,
      each rounded down and each counted once - none twice, none missed. */
  lemma {:induction false} RecordedHoldMatchesLog(at: Time, level: int, policy: seq<SlaRow>, created: Time,
      steps: seq<Timed>)
    ensures LogMatches(Run(Start(at, level, policy, created), steps))
  {
    if steps != [] {
      var front, last := steps[..|steps| - 1], steps[|steps| - 1];
      RecordedHoldMatchesLog(at, level, policy, created, front);
      CouplingOverRun(Start(at, level, policy, created), front);
      StepKeepsLog(Run(Start(at, level, policy, created), front), last.0, last.1);
    }
  }

  ghost predicate OrderedLog(log: seq<Change>, now: Time) {
    && (forall i | 0 <= i < |log| - 1 :: log[i].at <= log[i + 1].at)
    && (log != [] ==> log[|log| - 1].at <= now)
  }

  lemma {:induction false} RunKeepsLogOrdered(t: Tracked, steps: seq<Timed>)
    requires OrderedLog(t.log, t.now) && Monotone(t.now, steps)
    ensures OrderedLog(Run(t, steps).log, Run(t, steps).now)
    ensures Run(t, steps).now == EndTime(t.now, steps)
  {
    if steps != [] {
      RunKeepsLogOrdered(t, steps[..|steps| - 1]);
    }
  }

  lemma {:induction false} RoundingOfLog(log: seq<Change>)
    requires forall i | 0 <= i < |log| - 1 :: log[i].at <= log[i + 1].at
    ensures 0 <= RealHeld(log) - HeldInLog(log) * SECOND <= CompletedPauses(log) * (SECOND - 1)
  {
    if |log| >= 2 {
      RoundingOfLog(log[..|log| - 1]);
    }
  }

  /** With a clock that never goes back, k completed pauses lose less than k seconds
      to rounding, never gain any, and lose nothing when k is zero. */
  lemma HeldTimeRounding(at: Time, level: int, policy: seq<SlaRow>, created: Time, steps: seq<Timed>)
    requires Monotone(created, steps)
    ensures var t := Run(Start(at, level, policy, created), steps);
      var lost := RealHeld(t.log) - t.clock.pausedSeconds * SECOND;
      var k := CompletedPauses(t.log);
      && 0 <= lost
      && (if k == 0 then lost == 0 else lost < k * SECOND)
  {
    RecordedHoldMatchesLog(at, level, policy, created, steps);
    RunKeepsLogOrdered(Start(at, level, policy, created), steps);
    RoundingOfLog(Run(Start(at, level, policy, created), steps).log);
  }

  // ---- what a breach means ----------------------------------------------------

  // Where the resolution clock stands: at the last change while pending or closed,
  // running otherwise.
  function ResolutionClock(log: seq<Change>, now: Time): Time
    requires log != []
  {
    var last := log[|log| - 1];
    if last.status == Pending || IsClosed(last.status) then last.at else now
  }

  // Beyond so many minutes from the anchor, the recorded holds taken off.
  predicate Overtime(stopped: Time, anchor: Time, held: int, minutes: int) {
    stopped - anchor - held * SECOND > minutes * MINUTE
  }

  /** In every reachable state a case is in resolution breach exactly when the time from
      the anchor to where its clock stands, less the whole seconds of its stays in
      `pending`, exceeds the target of the band - read from the status log alone. */
  lemma ResolutionBreachIsOvertime(at: Time, level: int, policy: seq<SlaRow>, created: Time, steps: seq<Timed>,
      now: Time)
    ensures var t := Run(Start(at, level, policy, created), steps);
      && t.log != []
      && (ResolutionBreached(t.clock, now) <==>
            && t.band.Some?
            && Overtime(ResolutionClock(t.log, now), t.anchor, HeldInLog(t.log), t.band.value.resolveMinutes))
  {
    CouplingOverRun(Start(at, level, policy, created), steps);
    DeadlinesConserved(at, level, policy, created, steps);
    RecordedHoldMatchesLog(at, level, policy, created, steps);
    OvertimeByClock(Run(Start(at, level, policy, created), steps), now);
  }

  lemma OvertimeByClock(t: Tracked, now: Time)
    requires Coupled(t.clock) && Conserved(t) && LogMatches(t)
    ensures ResolutionBreached(t.clock, now) <==>
      t.band.Some? && Overtime(ResolutionClock(t.log, now), t.anchor, HeldInLog(t.log), t.band.value.resolveMinutes)
    ensures ResponseBreached(t.clock, now) <==>
      t.band.Some? && if t.clock.firstResponseAt.Some?
                      then Overtime(t.clock.firstResponseAt.value, t.anchor, HeldInLog(t.log),
                                      t.band.value.respondMinutes)
                      else Overtime(now, t.anchor, 0, t.band.value.respondMinutes)
  {
  }

  /** The response verdict likewise: unanswered, the clock has run without a break since
      the anchor; answered, it stopped at the answer - but every later hold is still
      taken off. */
  lemma ResponseBreachIsOvertime(at: Time, level: int, policy: seq<SlaRow>, created: Time, steps: seq<Timed>, now: Time)
    ensures var t := Run(Start(at, level, policy, created), steps);
      ResponseBreached(t.clock, now) <==>
        t.band.Some? && if t.clock.firstResponseAt.Some?
                        then Overtime(t.clock.firstResponseAt.value, t.anchor, HeldInLog(t.log),
                                      t.band.value.respondMinutes)
                        else Overtime(now, t.anchor, 0, t.band.value.respondMinutes)
  {
    CouplingOverRun(Start(at, level, policy, created), steps);
    DeadlinesConserved(at, level, policy, created, steps);
    RecordedHoldMatchesLog(at, level, policy, created, steps);
    OvertimeByClock(Run(Start(at, level, policy, created), steps), now);
  }

  // ---- breach of the resolution target ----------------------------------------

  // What every reachable state satisfies when the clock never goes back.
  ghost predicate Sound(t: Tracked) {
    Coupled(t.clock) && LogMatches(t) && OrderedLog(t.log, t.now)
  }

  lemma RunKeepsSound(t: Tracked, steps: seq<Timed>)
    requires Sound(t) && Monotone(t.now, steps)
    ensures Sound(Run(t, steps))
    decreases |steps|
  {
    CouplingOverRun(t, steps);
    RunKeepsLogOrdered(t, steps);
    if steps != [] {
      var front, last := steps[..|steps| - 1], steps[|steps| - 1];
      RunKeepsSound(t, front);
      StepKeepsLog(Run(t, front), last.0, last.1);
    }
  }

  lemma StartIsSound(at: Time, level: int, policy: seq<SlaRow>, created: Time)
    ensures Sound(Start(at, level, policy, created))
  {
  }

  // The instants on the clock are not in the future.
  ghost predicate StampedBy(c: Clock, now: Time) {
    (c.pausedAt.Some? ==> c.pausedAt.value <= now) && (c.closedAt.Some? ==> c.closedAt.value <= now)
  }

  lemma StepKeepsStamps(c: Clock, step: Step, now: Time)
    requires Coupled(c) && StampedBy(c, now)
    ensures StampedBy(ApplyStep(c, step, now), now)
  {
    if step.Edit? { EditTable(c, step, now); }
  }

  /** One step from a breached state, exactly: the breach is gone later if and only
      if the step is an alert that escalates an unanswered case onto a resolution
      deadline not yet reached. */
  lemma BreachLapsesExactly(c: Clock, seen: Time, step: Step, now: Time, later: Time)
    requires Coupled(c) && StampedBy(c, seen) && seen <= now <= later
    requires ResolutionBreached(c, seen)
    ensures !ResolutionBreached(ApplyStep(c, step, now), later) <==>
      && Resets(c, step)
      && later <= Deadline(Min(c.firstSeen, step.at), BandFor(step.policy, step.level).value.resolveMinutes, 0)
  {
    if step.Edit? {
      EditTable(c, step, now);
    }
  }

  /** Once a case is answered, a resolution breach is permanent: seen at any time, it
      still holds at every later time, through any pauses, resumes, closes, reopens
      and joining alerts, although every resume moves the deadline forward. */
  lemma {:induction false} ResolutionBreachIsPermanent(t: Tracked, seen: Time, steps: seq<Timed>, later: Time)
    requires Sound(t) && t.clock.firstResponseAt.Some?
    requires t.now <= seen && Monotone(seen, steps) && EndTime(seen, steps) <= later
    requires ResolutionBreached(t.clock, seen)
    ensures ResolutionBreached(Run(t, steps).clock, later)
  {
    if steps == [] {
    } else {
      var front, last := steps[..|steps| - 1], steps[|steps| - 1];
      MonotoneFromEarlier(seen, t.now, front);
      ResolutionBreachIsPermanent(t, seen, front, EndTime(seen, front));
      CouplingOverRun(t, front);
      RunKeepsSound(t, front);
      RunKeepsLogOrdered(t, front);
      BreachLapsesExactly(Run(t, front).clock, EndTime(seen, front), last.0, last.1, later);
    }
  }

  /** So from creation on: whatever led to an answered case in breach, the breach stays. */
  lemma BreachStaysFromCreation(at: Time, level: int, policy: seq<SlaRow>, created: Time, before: seq<Timed>,
      seen: Time, steps: seq<Timed>, later: Time)
    requires Monotone(created, before) && EndTime(created, before) <= seen
    requires Monotone(seen, steps) && EndTime(seen, steps) <= later
    requires var t := Run(Start(at, level, policy, created), before);
      t.clock.firstResponseAt.Some? && ResolutionBreached(t.clock, seen)
    ensures ResolutionBreached(Run(Run(Start(at, level, policy, created), before), steps).clock, later)
  {
    var start := Start(at, level, policy, created);
    StartIsSound(at, level, policy, created);
    RunKeepsSound(start, before);
    RunKeepsLogOrdered(start, before);
    ResolutionBreachIsPermanent(Run(start, before), seen, steps, later);
  }

  // Unanswered, it can lapse: higher severity may come with a longer target.
  lemma UnansweredBreachCanLapse() returns (t: Tracked, step: Step, seen: Time)
    ensures Sound(t) && t.now <= seen && t.clock.firstResponseAt.None?
    ensures step.Attach? && Accepted(step.policy)
    ensures ResolutionBreached(t.clock, seen)
    ensures !ResolutionBreached(ApplyStep(t.clock, step, seen), seen)
  {
    var policy := ResolveTargetMayLengthen();
    t := Start(0, 3, policy, 0);
    step := Attach(0, 12, policy);
    seen := t.clock.resolveBy.value + 1;
    BandIsOrdered(policy, 3);
  }

  // ---- breach of the response target ------------------------------------------

  lemma AnsweredStepShiftsDeadline(c: Clock, step: Step, now: Time)
    requires Coupled(c) && c.firstResponseAt.Some? && c.respondBy.Some?
    ensures var d := ApplyStep(c, step, now);
      d.respondBy == Later(c.respondBy, d.pausedSeconds - c.pausedSeconds)
  {
    if step.Edit? {
      EditTable(c, step, now);
    }
  }

  // After the answer, the response deadline moves by the seconds held and by nothing else.
  lemma {:induction false} DeadlineShiftsByHold(t: Tracked, steps: seq<Timed>)
    requires Coupled(t.clock) && t.clock.firstResponseAt.Some? && t.clock.respondBy.Some?
    ensures var c, d := t.clock, Run(t, steps).clock;
      d.respondBy == Later(c.respondBy, d.pausedSeconds - c.pausedSeconds)
    decreases steps
  {
    hide ApplyStep, Coupled;
    if steps != [] {
      var front, last := steps[..|steps| - 1], steps[|steps| - 1];
      DeadlineShiftsByHold(t, front);
      CouplingOverRun(t, front);
      AnsweredStepShiftsDeadline(Run(t, front).clock, last.0, last.1);
    }
  }

  /** The response verdict of an answered case, exactly: after any run it is late if
      and only if the answer came after the deadline as it stood, moved forward by
      every second held since the answer. */
  lemma ResponseVerdictExactly(t: Tracked, steps: seq<Timed>, seen: Time)
    requires Coupled(t.clock) && t.clock.firstResponseAt.Some? && t.clock.respondBy.Some?
    ensures ResponseBreached(Run(t, steps).clock, seen) <==>
      t.clock.firstResponseAt.value >
      t.clock.respondBy.value + (Run(t, steps).clock.pausedSeconds - t.clock.pausedSeconds) * SECOND
  {
    DeadlineShiftsByHold(t, steps);
    CouplingOverRun(t, steps);
    VerdictFromShift(t.clock, Run(t, steps).clock, seen);
  }

  lemma VerdictFromShift(c: Clock, d: Clock, seen: Time)
    requires c.firstResponseAt.Some? && c.respondBy.Some?
    requires d.firstResponseAt == c.firstResponseAt
    requires d.respondBy == Later(c.respondBy, d.pausedSeconds - c.pausedSeconds)
    ensures ResponseBreached(d, seen) <==>
      c.firstResponseAt.value > c.respondBy.value + (d.pausedSeconds - c.pausedSeconds) * SECOND
  {
  }

  /** So a case answered in time stays answered in time. */
  lemma MetResponseStaysMet(t: Tracked, steps: seq<Timed>, seen: Time)
    requires Coupled(t.clock) && t.clock.firstResponseAt.Some? && t.clock.respondBy.Some?
    requires !ResponseBreached(t.clock, t.now)
    ensures !ResponseBreached(Run(t, steps).clock, seen)
  {
    ResponseVerdictExactly(t, steps, seen);
    CouplingOverRun(t, steps);
  }

  // But a late answer can come to read as met: answered at 20 minutes against 10,
  // then held for 39.
  lemma LateAnswerCanReadAsMet() returns (policy: seq<SlaRow>, answer: Timed, hold: seq<Timed>)
    ensures Accepted(policy)
    ensures Monotone(0, [answer] + hold)
    ensures var t := Run(Start(0, 5, policy, 0), [answer]);
      && ResponseBreached(t.clock, answer.1)
      && !ResponseBreached(Run(t, hold).clock, EndTime(answer.1, hold))
  {
    hide Monotone;
    policy := [SlaRow(0, 10, 600)];
    answer := (Edit(false, None, Some(Active), []), 20 * MINUTE);
    hold := [(Edit(false, None, Some(Pending), []), 21 * MINUTE),
             (Edit(false, None, Some(Active), []), 60 * MINUTE)];
    var start := Start(0, 5, policy, 0);
    assert Match(policy[1..], 5) == None;
    RunOfOne(start, answer);
    var t := Run(start, [answer]);
    RunOfTwo(t, hold[0], hold[1]);
    assert hold == [hold[0], hold[1]];
    MonotoneThree(0, answer, hold[0], hold[1]);
    assert [answer] + hold == [answer, hold[0], hold[1]];
  }

  lemma RunOfOne(t: Tracked, a: Timed)
    ensures Run(t, [a]) == Advance(t, a.0, a.1)
  {
    assert [a][..0] == [];
  }

  lemma RunOfTwo(t: Tracked, a: Timed, b: Timed)
    ensures Run(t, [a, b]) == Advance(Advance(t, a.0, a.1), b.0, b.1)
  {
    RunOfOne(t, a);
    assert [a, b][..1] == [a];
  }

  lemma MonotoneThree(from: Time, a: Timed, b: Timed, c: Timed)
    requires from <= a.1 <= b.1 <= c.1
    ensures Monotone(from, [a, b, c])
  {
    assert [a, b, c][..2] == [a, b] && [a, b][..1] == [a] && [a][..0] == [];
    assert Monotone(from, [a]);
    assert Monotone(from, [a, b]);
  }

  // ---- escalation only tightens -----------------------------------------------

  // The deadlines come from this policy at some severity not above the present one,
  // anchored no earlier than the present `first_seen`.
  ghost predicate SetBy(t: Tracked, policy: seq<SlaRow>, severity: int) {
    && t.band == BandFor(policy, severity)
    && severity <= t.clock.severity
    && t.clock.firstSeen <= t.anchor
  }

  ghost predicate FromPolicy(t: Tracked, policy: seq<SlaRow>) {
    && Coupled(t.clock)
    && Conserved(t)
    && exists severity :: SetBy(t, policy, severity)
  }

  // Alerts under the fixed policy, comments, and edits that do not lower the severity.
  predicate NeverLowers(c: Clock, step: Step, policy: seq<SlaRow>) {
    match step
    case Attach(_, _, p) => p == policy
    case Edit(_, severity, _, _) => severity.Some? ==> severity.value >= c.severity
    case Comment(_) => true
  }

  ghost predicate NeverLowersOver(t: Tracked, steps: seq<Timed>, policy: seq<SlaRow>) {
    forall i | 0 <= i < |steps| :: NeverLowers(Run(t, steps[..i]).clock, steps[i].0, policy)
  }

  lemma TighteningStep(t: Tracked, step: Step, now: Time, policy: seq<SlaRow>)
    requires Accepted(policy) && FromPolicy(t, policy) && NeverLowers(t.clock, step, policy)
    ensures var u := Advance(t, step, now);
      && (u.clock.firstResponseAt.None? ==> FromPolicy(u, policy))
      && (u.clock.firstResponseAt.None? && t.clock.respondBy.Some? ==>
            u.clock.respondBy.Some? && u.clock.respondBy.value <= t.clock.respondBy.value)
  {
    var u := Advance(t, step, now);
    StepKeepsCoupling(t.clock, step, now);
    StepConserves(t, step, now);
    var severity :| SetBy(t, policy, severity);
    if u.clock.firstResponseAt.None? {
      if Resets(t.clock, step) {
        HigherSeverityIsTighter(policy, severity, step.level);
        assert SetBy(u, policy, step.level);
      } else {
        assert t.clock.firstResponseAt.None?;
        assert SetBy(u, policy, severity);
      }
    }
  }

  // The one step that takes time away again: an escalation onto a later deadline.
  predicate Loosens(c: Clock, step: Step) {
    && Resets(c, step)
    && c.respondBy.Some?
    && Deadline(Min(c.firstSeen, step.at), BandFor(step.policy, step.level).value.respondMinutes, 0) > c.respondBy.value
  }

  ghost predicate NoLater(before: Clock, after: Clock) {
    before.respondBy.Some? ==> after.respondBy.Some? && after.respondBy.value <= before.respondBy.value
  }

  /** One step of a case that stays unanswered, exactly: its response deadline moves later
      or goes away if and only if the step is an escalation onto a later deadline. */
  lemma LoosensExactly(c: Clock, step: Step, now: Time)
    requires Coupled(c) && ApplyStep(c, step, now).firstResponseAt.None?
    ensures !NoLater(c, ApplyStep(c, step, now)) <==> Loosens(c, step)
  {
    if step.Edit? { EditTable(c, step, now); }
  }

  // Step `i` of a run.
  ghost predicate NoLaterAt(t: Tracked, steps: seq<Timed>, i: nat)
    requires i < |steps|
  {
    NoLater(Run(t, steps[..i]).clock, Run(t, steps[..i + 1]).clock)
  }

  predicate LoosensAt(t: Tracked, steps: seq<Timed>, i: nat)
    requires i < |steps|
  {
    Loosens(Run(t, steps[..i]).clock, steps[i].0)
  }

  /** Over any run of a case that stays unanswered, the response deadline never moves later
      and never goes away, at any step, if and only if no step is such an escalation. */
  lemma NeverLaterExactly(t: Tracked, steps: seq<Timed>)
    requires Coupled(t.clock) && Run(t, steps).clock.firstResponseAt.None?
    ensures (forall i | 0 <= i < |steps| :: NoLaterAt(t, steps, i)) <==>
      (forall i | 0 <= i < |steps| :: !LoosensAt(t, steps, i))
  {
    forall i | 0 <= i < |steps| ensures NoLaterAt(t, steps, i) <==> !LoosensAt(t, steps, i) {
      StepOfRun(t, steps, i);
    }
  }

  lemma UnansweredBefore(t: Tracked, steps: seq<Timed>, i: nat)
    requires Coupled(t.clock) && Run(t, steps).clock.firstResponseAt.None? && i <= |steps|
    ensures Coupled(Run(t, steps[..i]).clock) && Run(t, steps[..i]).clock.firstResponseAt.None?
  {
    hide ApplyStep, Advance;
    CouplingOverRun(t, steps[..i]);
    RunSplits(t, steps[..i], steps[i..]);
    assert steps == steps[..i] + steps[i..];
    CouplingOverRun(Run(t, steps[..i]), steps[i..]);
  }

  lemma OneStepMore(t: Tracked, steps: seq<Timed>, i: nat)
    requires i < |steps|
    ensures Run(t, steps[..i + 1]) == Advance(Run(t, steps[..i]), steps[i].0, steps[i].1)
  {
    assert steps[..i + 1][..i] == steps[..i];
  }

  lemma StepOfRun(t: Tracked, steps: seq<Timed>, i: nat)
    requires Coupled(t.clock) && Run(t, steps).clock.firstResponseAt.None? && i < |steps|
    ensures NoLaterAt(t, steps, i) <==> !LoosensAt(t, steps, i)
  {
    UnansweredBefore(t, steps, i);
    UnansweredBefore(t, steps, i + 1);
    OneStepMore(t, steps, i);
    LoosensExactly(Run(t, steps[..i]).clock, steps[i].0, steps[i].1);
  }

  lemma {:induction false} RunSplits(t: Tracked, a: seq<Timed>, b: seq<Timed>)
    ensures Run(t, a + b) == Run(Run(t, a), b)
  {
    if b == [] {
      assert a + b == a;
    } else {
      RunSplits(t, a, b[..|b| - 1]);
      assert (a + b)[..|a + b| - 1] == a + b[..|b| - 1];
    }
  }

  /** Under one accepted policy, while a case stays unanswered and nobody lowers its
      severity by hand, its response deadline never moves later and never goes away,
      whatever alerts join and in whatever order their timestamps come. */
  lemma {:induction false} EscalationOnlyTightens(t: Tracked, steps: seq<Timed>, policy: seq<SlaRow>)
    requires Accepted(policy) && FromPolicy(t, policy) && NeverLowersOver(t, steps, policy)
    requires Run(t, steps).clock.firstResponseAt.None?
    ensures FromPolicy(Run(t, steps), policy)
    ensures t.clock.respondBy.Some? ==>
      && Run(t, steps).clock.respondBy.Some?
      && Run(t, steps).clock.respondBy.value <= t.clock.respondBy.value
  {
    if steps != [] {
      var front, last := steps[..|steps| - 1], steps[|steps| - 1];
      CouplingOverRun(t, front);
      StepKeepsCoupling(Run(t, front).clock, last.0, last.1);
      assert NeverLowersOver(t, front, policy) by {
        forall i | 0 <= i < |front| ensures NeverLowers(Run(t, front[..i]).clock, front[i].0, policy) {
          assert front[..i] == steps[..i];
        }
      }
      EscalationOnlyTightens(t, front, policy);
      TighteningStep(Run(t, front), last.0, last.1, policy);
    }
  }

  // Every new case starts in that state.
  lemma StartIsFromPolicy(at: Time, level: int, policy: seq<SlaRow>, created: Time)
    ensures FromPolicy(Start(at, level, policy, created), policy)
  {
    assert SetBy(Start(at, level, policy, created), policy, level);
  }

  // Lowered by hand, the severity can rise again onto a looser band.
  lemma LoweringCanLoosen() returns (policy: seq<SlaRow>, steps: seq<Timed>)
    ensures Accepted(policy) && Monotone(0, steps)
    ensures var t := Start(0, 12, policy, 0);
      && Run(t, steps).clock.firstResponseAt.None?
      && t.clock.respondBy.Some? && Run(t, steps).clock.respondBy.Some?
      && t.clock.respondBy.value < Run(t, steps).clock.respondBy.value
  {
    policy := [SlaRow(5, 60, 600), SlaRow(10, 10, 600)];
    steps := [(Edit(false, Some(3), None, policy), 1), (Attach(0, 7, policy), 2)];
    var t := Start(0, 12, policy, 0);
    assert Match(policy[1..][1..], 12) == None;
    assert Match(policy[1..], 7) == None;
    RunOfTwo(t, steps[0], steps[1]);
    assert steps[..1][..0] == [];
  }
}
