/** Every clock in a reachable database is the clock of some run of steps from a creation,
    so what the runs keep holds of every incident of the running system. */
module ReachableClocks {
  import opened Model
  import opened SlaPolicy
  import opened Sla
  import opened SlaRuns
  import opened Tables
  import opened Grouping
  import opened IngestConsumer
  import opened IncidentsApi
  import opened Delivery

  // The run of one case: opened by an alert, then stepped in order up to some instant.
  datatype Story = Story(at: Time, level: int, policy: seq<SlaRow>, created: Time, steps: seq<Timed>)
  {
    function End(): Tracked { Run(Start(at, level, policy, created), steps) }

    ghost predicate By(now: Time) { Monotone(created, steps) && EndTime(created, steps) <= now }
  }

  ghost predicate Told(c: Clock, now: Time) { exists story: Story :: story.By(now) && story.End().clock == c }

  lemma ToldLater(c: Clock, now: Time, later: Time)
    requires Told(c, now) && now <= later
    ensures Told(c, later)
  {
    var story: Story :| story.By(now) && story.End().clock == c;
    assert story.By(later);
  }

  lemma ToldStep(c: Clock, step: Step, now: Time, later: Time)
    requires Told(c, now) && now <= later
    ensures Told(ApplyStep(c, step, later), later)
  {
    var story: Story :| story.By(now) && story.End().clock == c;
    var longer := story.(steps := story.steps + [(step, later)]);
    assert longer.steps[..|longer.steps| - 1] == story.steps;
    assert longer.By(later) && longer.End().clock == ApplyStep(c, step, later);
  }

  lemma ToldFresh(at: Time, level: int, policy: seq<SlaRow>, now: Time)
    ensures Told(FreshClock(at, level, policy), now)
  {
    var story := Story(at, level, policy, now, []);
    assert story.By(now) && story.End().clock == FreshClock(at, level, policy);
  }

  ghost predicate AllTold(rows: seq<IncidentRow>, now: Time) {
    forall i | 0 <= i < |rows| :: Told(rows[i].clock, now)
  }

  lemma PlaceKeepsTold(incidents: seq<IncidentRow>, counters: map<TenantId, int>, a: Alert, config: TenantConfig,
      at: Time, size: Sizer, now: Time)
    requires AllTold(incidents, now)
    ensures AllTold(Place(incidents, counters, a, config, at, size).incidents, now)
  {
    var open := FindOpen(incidents, a.tenant, a.fingerprint);
    if open.Some? {
      ToldStep(incidents[open.value].clock, Step.Attach(a.timestamp, a.ruleLevel, config.policy), now, now);
    } else {
      ToldFresh(a.timestamp, a.ruleLevel, config.policy, now);
    }
  }

  lemma {:induction false} GroupAllKeepsTold(env: Env, db: Db, rows: seq<Row>, now: Time)
    requires AllTold(db.incidents, now)
    ensures AllTold(GroupAll(env, db, rows).incidents, now)
  {
    if rows != [] {
      var front, last := rows[..|rows| - 1], rows[|rows| - 1];
      GroupAllKeepsTold(env, db, front, now);
      var mid := GroupAll(env, db, front);
      if GroupsFor(mid, last.alert.tenant) {
        PlaceKeepsTold(mid.incidents, mid.counters, last.alert, mid.tenants[last.alert.tenant], last.groupedAt,
                       env.size, now);
      }
    }
  }

  lemma {:induction false} EditRowsKeepTold(incidents: seq<IncidentRow>, ids: seq<nat>, step: Step, now: Time)
    requires AllTold(incidents, now)
    ensures AllTold(EditRows(incidents, ids, step, now), now)
  {
    if ids != [] {
      var front, id := ids[..|ids| - 1], ids[|ids| - 1];
      EditRowsKeepTold(incidents, front, step, now);
      var mid := EditRows(incidents, front, step, now);
      if id < |mid| { ToldStep(mid[id].clock, step, now, now); }
    }
  }

  lemma StepKeepsTold(env: Env, s: Sys, e: Event)
    requires AllTold(s.db.incidents, s.now)
    ensures AllTold(Next(env, s, e).db.incidents, Next(env, s, e).now)
  {
    if Enabled(s, e) {
      if e.Commit? {
        var batch := Batch(s.stream, s.held[e.writer].ids, e.readings);
        GroupAllKeepsTold(env, Inserted(env, s.db, batch), Landed(env, s.db, batch), s.now);
      } else if e.Request? {
        forall i | 0 <= i < |s.db.incidents| ensures Told(s.db.incidents[i].clock, e.at) {
          ToldLater(s.db.incidents[i].clock, s.now, e.at);
        }
        EditRowsKeepTold(s.db.incidents, IdsOf(e.request), StepOf(s.db, e.request), e.at);
      }
    }
  }

  lemma {:induction false} RunKeepsTold(env: Env, s: Sys, events: seq<Event>)
    requires AllTold(s.db.incidents, s.now)
    ensures AllTold(RunAll(env, s, events).db.incidents, RunAll(env, s, events).now)
  {
    if events != [] {
      RunKeepsTold(env, s, events[..|events| - 1]);
      StepKeepsTold(env, RunAll(env, s, events[..|events| - 1]), events[|events| - 1]);
    }
  }

  // What every run keeps, in one place: status and clock agree, the deadlines are
  // conserved, the recorded holds match the log and are rounded down by little.
  ghost predicate Kept(t: Tracked) {
    var lost, k := RealHeld(t.log) - t.clock.pausedSeconds * SECOND, CompletedPauses(t.log);
    && Sound(t) && Conserved(t)
    && 0 <= lost && (if k == 0 then lost == 0 else lost < k * SECOND)
  }

  lemma StoryIsKept(story: Story, now: Time)
    requires story.By(now)
    ensures Kept(story.End())
  {
    var start := Start(story.at, story.level, story.policy, story.created);
    StartIsSound(story.at, story.level, story.policy, story.created);
    RunKeepsSound(start, story.steps);
    DeadlinesConserved(story.at, story.level, story.policy, story.created, story.steps);
    HeldTimeRounding(story.at, story.level, story.policy, story.created, story.steps);
  }

  ghost predicate KeptClock(c: Clock) { exists t: Tracked :: Kept(t) && t.clock == c }

  lemma ToldIsKept(c: Clock, now: Time)
    requires Told(c, now)
    ensures KeptClock(c)
  {
    var story: Story :| story.By(now) && story.End().clock == c;
    StoryIsKept(story, now);
  }

  /** From an empty system, whatever alerts land in whatever batches, whatever crashes and
      whatever analysts do: every incident's clock is the clock of a run that keeps
      conservation, coupling, the status log and the rounding bound. */
  lemma EveryClockIsKept(env: Env, tenants: map<TenantId, TenantConfig>, now: Time, events: seq<Event>)
    ensures var s := RunAll(env, Initial(tenants, now), events);
      forall i | 0 <= i < |s.db.incidents| :: KeptClock(s.db.incidents[i].clock)
  {
    RunKeepsTold(env, Initial(tenants, now), events);
    var s := RunAll(env, Initial(tenants, now), events);
    ToldAreKept(s.db.incidents, s.now);
  }

  lemma ToldAreKept(rows: seq<IncidentRow>, now: Time)
    requires AllTold(rows, now)
    ensures forall i | 0 <= i < |rows| :: KeptClock(rows[i].clock)
  {
    forall i | 0 <= i < |rows| ensures KeptClock(rows[i].clock) {
      ToldIsKept(rows[i].clock, now);
    }
  }
}
