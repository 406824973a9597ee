/** What can commit, and what never will: partitions and tenants against delivery. */
module Progress {
  import Partitions
  import opened Model
  import opened Tables
  import opened Parser
  import opened IngestConsumer
  import opened ExactlyOnce
  import opened Commits
  import opened IncidentsApi
  import opened Delivery
  import opened Acknowledged

  // ---- dates and partitions ---------------------------------------------------

  lemma InMonthExactly(d: Partitions.Date, m: int)
    requires Partitions.ValidDate(d)
    ensures InBounds(d, Partitions.Bounds(Partitions.FirstOf(m), Partitions.FirstOf(m + 1))) <==>
      m == Partitions.MonthIndex(d)
  {
    Partitions.FirstOfIs(m);
    Partitions.FirstOfIs(m + 1);
    Partitions.BeforeFirst(d, Partitions.FirstOf(m));
    Partitions.BeforeFirst(d, Partitions.FirstOf(m + 1));
  }

  /** Under maintained partitions, a date has one exactly when its month is held. */
  lemma {:induction false} CoveredExactly(naming: Partitions.Naming, low: int, high: int, d: Partitions.Date)
    requires Partitions.Faithful(naming) && Partitions.ValidDate(d)
    requires Partitions.FIRST_MONTH <= low && high <= Partitions.LAST_MONTH
    ensures HasPartition(Partitions.MonthsFrom(naming, low, high), d) <==> low <= Partitions.MonthIndex(d) <= high
    decreases high - low
  {
    if low <= high {
      CoveredExactly(naming, low, high - 1, d);
      InMonthExactly(d, high);
      OneMorePartition(naming, low, high, d);
    }
  }

  lemma OneMorePartition(naming: Partitions.Naming, low: int, high: int, d: Partitions.Date)
    requires Partitions.Faithful(naming)
    requires Partitions.FIRST_MONTH <= low <= high <= Partitions.LAST_MONTH
    ensures HasPartition(Partitions.MonthsFrom(naming, low, high), d) <==>
      || HasPartition(Partitions.MonthsFrom(naming, low, high - 1), d)
      || InBounds(d, Partitions.Bounds(Partitions.FirstOf(high), Partitions.FirstOf(high + 1)))
  {
    var before, after := Partitions.MonthsFrom(naming, low, high - 1), Partitions.MonthsFrom(naming, low, high);
    var added := naming.write(Partitions.FirstOf(high));
    Partitions.IntervalHolds(naming, low, high - 1, high);
    assert added !in before && added in after;
    if HasPartition(before, d) {
      var name :| name in before && InBounds(d, before[name]);
      assert name in after && after[name] == before[name];
    }
    if HasPartition(after, d) {
      var name :| name in after && InBounds(d, after[name]);
      if name != added { assert name in before && before[name] == after[name]; }
    }
  }

  /** Between maintenance runs of the program's own partitions, an alert has a partition
      exactly when its month lies from the lowest one kept to those made ahead. */
  lemma MaintainedCoversExactly(runs: seq<Partitions.Maintenance>, premake: nat, retention: nat, d: Partitions.Date)
    requires Partitions.Steady(runs, premake) && runs != [] && Partitions.ValidDate(d)
    ensures HasPartition(Partitions.MaintainAll(Partitions.MonthlyNames(), runs, premake, retention), d) <==>
      Partitions.LowAfter(runs, retention) <= Partitions.MonthIndex(d)
        <= Partitions.MonthIndex(Partitions.LastOf(runs)) + premake
  {
    hide Partitions.MaintainAll, Partitions.MonthsFrom, Partitions.LowAfter, Partitions.MonthIndex;
    hide Partitions.Faithful, Partitions.MonthlyNames, HasPartition;
    var naming := Partitions.MonthlyNames();
    Partitions.MonthlyNamesAreFaithful();
    Partitions.SteadyStep(runs, premake);
    Partitions.PartitionsStayContiguous(naming, runs, premake, retention);
    CoveredExactly(naming, Partitions.LowAfter(runs, retention),
                   Partitions.MonthIndex(Partitions.LastOf(runs)) + premake, d);
  }

  // ---- which held batches can commit ------------------------------------------

  // The entry, parsed at some instant, would not abort the transaction.
  predicate EntryFits(env: Env, db: Db, partitions: Partitions.Catalogue, entry: Entry, at: Time) {
    entry.Entry? ==>
      && entry.tenant in db.tenants
      && HasPartition(partitions, env.dateOf(Parse(env.ops, entry.tenant, entry.raw, at).timestamp))
  }

  predicate BatchFits(env: Env, db: Db, partitions: Partitions.Catalogue, batch: seq<Handled>) {
    forall i | 0 <= i < |batch| :: EntryFits(env, db, partitions, batch[i].entry, batch[i].parsedAt)
  }

  /** A batch commits exactly when each of its entries would: one that does not takes all
      the others with it. */
  lemma {:induction false} CommitsExactly(env: Env, db: Db, partitions: Partitions.Catalogue, batch: seq<Handled>)
    ensures CanCommit(env, db.tenants, partitions, RowsOf(env, batch)) <==> BatchFits(env, db, partitions, batch)
  {
    if batch != [] {
      var front, last := batch[..|batch| - 1], batch[|batch| - 1];
      CommitsExactly(env, db, partitions, front);
      var before, rows := RowsOf(env, front), RowsOf(env, batch);
      assert forall i | 0 <= i < |front| :: front[i] == batch[i];
      if last.entry.Entry? {
        OneMoreRow(env, db, partitions, before, RowOf(env, last));
      }
      assert BatchFits(env, db, partitions, batch) <==>
        BatchFits(env, db, partitions, front) && EntryFits(env, db, partitions, last.entry, last.parsedAt);
    }
  }

  lemma OneMoreRow(env: Env, db: Db, partitions: Partitions.Catalogue, rows: seq<Row>, row: Row)
    ensures CanCommit(env, db.tenants, partitions, rows + [row]) <==>
      && CanCommit(env, db.tenants, partitions, rows)
      && row.alert.tenant in db.tenants
      && HasPartition(partitions, env.dateOf(row.alert.timestamp))
  {
    var all := rows + [row];
    assert all[|rows|] == row;
    assert forall i | 0 <= i < |rows| :: all[i] == rows[i];
  }

  // Some reading of the clock makes the entry fit.
  ghost predicate CanFit(env: Env, db: Db, partitions: Partitions.Catalogue, entry: Entry) {
    exists at: Time :: EntryFits(env, db, partitions, entry, at)
  }

  ghost function FittingTime(env: Env, db: Db, partitions: Partitions.Catalogue, entry: Entry): (at: Time)
    requires CanFit(env, db, partitions, entry)
    ensures EntryFits(env, db, partitions, entry, at)
  {
    var at: Time :| EntryFits(env, db, partitions, entry, at);
    at
  }

  function EntryAt(stream: seq<Entry>, id: nat): Entry { if id < |stream| then stream[id] else Malformed }

  // An event that is no commit, or one whose transaction does not abort.
  predicate MayHappen(env: Env, s: Sys, e: Event, partitions: Partitions.Catalogue) {
    e.Commit? && Enabled(s, e) ==>
      CanCommit(env, s.db.tenants, partitions, RowsOf(env, Batch(s.stream, s.held[e.writer].ids, e.readings)))
  }

  /** What a consumer holds can be committed, at some readings of the clock, exactly when
      every entry of it is malformed or has a known tenant and a timestamp in a held
      partition. */
  lemma HeldCanCommitExactly(env: Env, s: Sys, c: Consumer, partitions: Partitions.Catalogue)
    requires c in s.held && !s.held[c].committed
    ensures
      (exists readings :: Enabled(s, Commit(c, readings)) && MayHappen(env, s, Commit(c, readings), partitions)) <==>
      forall i | 0 <= i < |s.held[c].ids| :: CanFit(env, s.db, partitions, EntryAt(s.stream, s.held[c].ids[i]))
  {
    var ids := s.held[c].ids;
    if forall i | 0 <= i < |ids| :: CanFit(env, s.db, partitions, EntryAt(s.stream, ids[i])) {
      var readings := seq(|ids|, i requires 0 <= i < |ids| =>
        (FittingTime(env, s.db, partitions, EntryAt(s.stream, ids[i])), 0));
      CommitsExactly(env, s.db, partitions, Batch(s.stream, ids, readings));
      assert Enabled(s, Commit(c, readings)) && MayHappen(env, s, Commit(c, readings), partitions);
    }
    if readings :| Enabled(s, Commit(c, readings)) && MayHappen(env, s, Commit(c, readings), partitions) {
      CommittedFit(env, s, c, readings, partitions);
    }
  }

  // ---- runs in which only what can commit does --------------------------------

  // The partitions held when each event comes; maintenance may change them in between.
  type Holdings = nat -> Partitions.Catalogue

  ghost predicate RealRun(env: Env, s: Sys, events: seq<Event>, held: Holdings) {
    events == [] ||
    (RealRun(env, s, events[..|events| - 1], held)
     && MayHappen(env, RunAll(env, s, events[..|events| - 1]), events[|events| - 1], held(|events| - 1)))
  }

  // Tenants are never forgotten and never have a negative window.
  ghost predicate WindowsSet(db: Db) { forall t | t in db.tenants :: db.tenants[t].windowMinutes >= 0 }

  ghost predicate AllGrouped(db: Db) {
    forall k | k in db.alerts :: db.alerts[k].incident.Some? && k.tenant in db.tenants
  }

  lemma CommitGroupsAll(env: Env, db: Db, partitions: Partitions.Catalogue, batch: seq<Handled>)
    requires TablesOk(db) && WindowsSet(db) && AllGrouped(db)
    requires CanCommit(env, db.tenants, partitions, RowsOf(env, batch))
    ensures AllGrouped(Committed(env, db, batch))
  {
    var after := Committed(env, db, batch);
    CommitKeepsTables(env, db, batch);
    FreshLand(db.alerts, RowsOf(env, batch));
    forall k | k in after.alerts ensures k.tenant in db.tenants && after.alerts[k].incident.Some? {
      assert k in Inserted(env, db, batch).alerts;
      StoredTenantIsKnown(env, db, partitions, RowsOf(env, batch), k);
      CommitLinksAll(env, db, batch, k.tenant);
    }
  }

  lemma StoredTenantIsKnown(env: Env, db: Db, partitions: Partitions.Catalogue, rows: seq<Row>, k: AlertKey)
    requires AllGrouped(db) && CanCommit(env, db.tenants, partitions, rows) && k in InsertAll(db.alerts, rows)
    ensures k.tenant in db.tenants
  {
    FreshLand(db.alerts, rows);
    if k !in db.alerts {
      var i :| 0 <= i < |rows| && rows[i].Key() == k;
    }
  }

  lemma EventGroupsAll(env: Env, s: Sys, e: Event, partitions: Partitions.Catalogue)
    requires TablesOk(s.db) && WindowsSet(s.db) && AllGrouped(s.db) && MayHappen(env, s, e, partitions)
    ensures WindowsSet(Next(env, s, e).db) && AllGrouped(Next(env, s, e).db)
  {
    hide TablesOk, Committed, Batch, RowsOf, CanCommit;
    if Enabled(s, e) {
      if e.Commit? {
        CommitKeepsTables(env, s.db, Batch(s.stream, s.held[e.writer].ids, e.readings));
        CommitGroupsAll(env, s.db, partitions, Batch(s.stream, s.held[e.writer].ids, e.readings));
      } else if e.Request? {
        RequestKeepsTables(s.db, e.request, e.at);
      }
    }
  }

  /** In every run of transactions that do commit, each stored alert is of a known tenant
      and in an incident: the branch that stores an alert of an unknown tenant and does not
      group it never commits. */
  lemma {:induction false} NoAlertIsLeftOut(env: Env, s: Sys, events: seq<Event>, held: Holdings)
    requires TablesOk(s.db) && DeliveryOk(env, s) && WindowsSet(s.db) && AllGrouped(s.db)
    requires RealRun(env, s, events, held)
    ensures WindowsSet(RunAll(env, s, events).db) && AllGrouped(RunAll(env, s, events).db)
  {
    if events != [] {
      var front := events[..|events| - 1];
      NoAlertIsLeftOut(env, s, front, held);
      NothingIsLost(env, s, front);
      EventGroupsAll(env, RunAll(env, s, front), events[|events| - 1], held(|events| - 1));
    }
  }

  // ---- what can be acknowledged -----------------------------------------------

  // A consumer takes entries, commits them and acknowledges them.
  function Turn(e: Event, c: Consumer, readings: seq<(Time, Time)>): seq<Event> {
    [e, Commit(c, readings), Ack(c)]
  }

  // The event would give the entry to its consumer.
  predicate Given(s: Sys, e: Event, id: nat) {
    (e.Read? && s.cursor <= id < s.cursor + e.count) || (e.Reclaim? && id in e.ids)
  }

  // A free consumer reads on, or reclaims pending entries, at most 200.
  predicate FreeToTake(s: Sys, e: Event, c: Consumer) {
    && c !in s.held
    && ((e.Read? && e.reader == c && 0 < e.count <= 200 && s.cursor + e.count <= |s.stream|)
        || (e.Reclaim? && e.claimer == c && 0 < |e.ids| <= 200
            && forall i | 0 <= i < |e.ids| :: e.ids[i] in s.pending))
  }

  ghost predicate AcksAll(env: Env, s: Sys, e: Event, c: Consumer, readings: seq<(Time, Time)>) {
    forall id | Given(s, e, id) :: id in RunAll(env, s, Turn(e, c, readings)).acked
  }

  lemma AfterTaking(env: Env, s: Sys, e: Event, c: Consumer)
    requires FreeToTake(s, e, c)
    ensures Enabled(s, e)
    ensures var t := Next(env, s, e);
      && c in t.held && !t.held[c].committed && t.stream == s.stream && t.db == s.db
      && (forall id :: id in t.held[c].ids <==> Given(s, e, id))
      && (forall id | Given(s, e, id) :: id in t.pending)
  {
    var t := Next(env, s, e);
    TakingHolds(env, s, e, c, 0);
    forall id
      ensures id in t.held[c].ids <==> Given(s, e, id)
      ensures Given(s, e, id) ==> id in t.pending
    {
      TakingHolds(env, s, e, c, id);
    }
  }

  lemma AfterCommit(env: Env, s: Sys, c: Consumer, readings: seq<(Time, Time)>)
    requires Enabled(s, Commit(c, readings))
    ensures var t := Next(env, s, Commit(c, readings));
      t.held == s.held[c := Held(s.held[c].ids, true)] && t.pending == s.pending
  {
  }

  lemma TurnRuns(env: Env, s: Sys, e: Event, c: Consumer, readings: seq<(Time, Time)>, held: Holdings)
    requires !e.Commit?
    ensures var events, t := Turn(e, c, readings), Next(env, s, e);
      && RunAll(env, s, events) == Next(env, Next(env, t, Commit(c, readings)), Ack(c))
      && (RealRun(env, s, events, held) <==> MayHappen(env, t, Commit(c, readings), held(1)))
  {
    hide Next, MayHappen;
    var events := Turn(e, c, readings);
    assert events[..2][..1] == events[..1] && events[..1][..0] == [] && events[..2][1] == events[1];
    assert RunAll(env, s, events[..1]) == Next(env, s, events[0]);
    NoCommit(env, s, events[0], held(0));
    NoCommit(env, RunAll(env, s, events[..2]), events[2], held(2));
    assert RealRun(env, s, events[..1], held);
  }

  lemma NoCommit(env: Env, s: Sys, e: Event, partitions: Partitions.Catalogue)
    requires !e.Commit?
    ensures MayHappen(env, s, e, partitions)
  {
  }

  /** Undelivered entries that a free consumer reads on, or pending ones that it reclaims,
      up to 200 at a time, can be committed and acknowledged, all of them, exactly when each
      is malformed or has a known tenant and a timestamp in a held partition. */
  lemma CanBeAckedExactly(env: Env, s: Sys, e: Event, c: Consumer, held: Holdings)
    requires DeliveryOk(env, s) && FreeToTake(s, e, c)
    ensures
      (exists readings :: RealRun(env, s, Turn(e, c, readings), held) && AcksAll(env, s, e, c, readings)) <==>
      forall id | Given(s, e, id) :: CanFit(env, s.db, held(1), EntryAt(s.stream, id))
  {
    hide Next, RunAll, DeliveryOk, CanFit, Turn, Given, FreeToTake;
    var t := Next(env, s, e);
    AfterTaking(env, s, e, c);
    HeldCanCommitExactly(env, t, c, held(1));
    FitsByPosition(env, s, t, e, c, held(1));
    if readings :| Enabled(t, Commit(c, readings)) && MayHappen(env, t, Commit(c, readings), held(1)) {
      TakingIsNoCommit(s, e, c);
      TurnRuns(env, s, e, c, readings, held);
      TurnAcks(env, s, e, t, c, readings);
    }
    if readings :| RealRun(env, s, Turn(e, c, readings), held) && AcksAll(env, s, e, c, readings) {
      TakingIsNoCommit(s, e, c);
      TurnRuns(env, s, e, c, readings, held);
      TurnNeedsCommit(env, s, t, e, c, readings);
    }
  }

  lemma TakingIsNoCommit(s: Sys, e: Event, c: Consumer)
    requires FreeToTake(s, e, c)
    ensures !e.Commit?
  {
  }

  lemma FitsByPosition(env: Env, s: Sys, t: Sys, e: Event, c: Consumer, partitions: Partitions.Catalogue)
    requires c in t.held && t.stream == s.stream && t.db == s.db
    requires forall id :: id in t.held[c].ids <==> Given(s, e, id)
    ensures
      (forall i | 0 <= i < |t.held[c].ids| :: CanFit(env, t.db, partitions, EntryAt(t.stream, t.held[c].ids[i]))) <==>
      (forall id | Given(s, e, id) :: CanFit(env, s.db, partitions, EntryAt(s.stream, id)))
  {
    hide CanFit, Given, EntryAt;
    forall i | 0 <= i < |t.held[c].ids| ensures Given(s, e, t.held[c].ids[i]) {
      assert t.held[c].ids[i] in t.held[c].ids;
    }
  }

  lemma TurnAcks(env: Env, s: Sys, e: Event, t: Sys, c: Consumer, readings: seq<(Time, Time)>)
    requires Enabled(t, Commit(c, readings)) && c in t.held
    requires forall id | Given(s, e, id) :: id in t.held[c].ids && id in t.pending
    ensures forall id | Given(s, e, id) :: id in Next(env, Next(env, t, Commit(c, readings)), Ack(c)).acked
  {
    hide Next, Given;
    AfterCommit(env, t, c, readings);
    forall id | Given(s, e, id) ensures id in Next(env, Next(env, t, Commit(c, readings)), Ack(c)).acked {
      AckTakesOut(env, Next(env, t, Commit(c, readings)), c, id);
    }
  }

  // What is taken was not acknowledged yet, and a commit that is not enabled leaves it so.
  lemma TurnNeedsCommit(env: Env, s: Sys, t: Sys, e: Event, c: Consumer, readings: seq<(Time, Time)>)
    requires DeliveryOk(env, s) && FreeToTake(s, e, c) && t == Next(env, s, e)
    requires forall id | Given(s, e, id) :: id in Next(env, Next(env, t, Commit(c, readings)), Ack(c)).acked
    ensures Enabled(t, Commit(c, readings))
  {
    AfterTaking(env, s, e, c);
    TakingHolds(env, s, e, c, 0);
    var id := if e.Read? then s.cursor else e.ids[0];
    assert Given(s, e, id) && id !in s.acked;
  }

  // ---- one entry that holds up the rest ---------------------------------------

  // Whoever takes entry `q` takes entry `p` with it, and `p` can never commit.
  ghost predicate HoldsUp(env: Env, s: Sys, e: Event, partitions: Partitions.Catalogue, p: nat, q: nat) {
    && (e.Read? && Enabled(s, e) ==> q in Range(s.cursor, e.count) ==> p in Range(s.cursor, e.count))
    && (e.Reclaim? && Enabled(s, e) ==> q in e.ids ==> p in e.ids)
    && (e.Commit? && Enabled(s, e) ==> !CanFit(env, s.db, partitions, EntryAt(s.stream, p)))
  }

  ghost predicate HeldUpRun(env: Env, s: Sys, events: seq<Event>, held: Holdings, p: nat, q: nat) {
    events == [] ||
    (HeldUpRun(env, s, events[..|events| - 1], held, p, q)
     && HoldsUp(env, RunAll(env, s, events[..|events| - 1]), events[|events| - 1], held(|events| - 1), p, q))
  }

  // Neither is acknowledged, nor held by anybody who has committed.
  ghost predicate Stuck(s: Sys, p: nat, q: nat) {
    && p !in s.acked && q !in s.acked
    && forall c | c in s.held :: StuckIn(s.held[c], p, q)
  }

  ghost predicate StuckIn(held: Held, p: nat, q: nat) {
    (q in held.ids ==> p in held.ids) && (held.committed ==> p !in held.ids)
  }

  lemma CommittedFit(env: Env, s: Sys, c: Consumer, readings: seq<(Time, Time)>, partitions: Partitions.Catalogue)
    requires Enabled(s, Commit(c, readings)) && MayHappen(env, s, Commit(c, readings), partitions)
    ensures forall id | id in s.held[c].ids :: CanFit(env, s.db, partitions, EntryAt(s.stream, id))
  {
    var ids := s.held[c].ids;
    var batch := Batch(s.stream, ids, readings);
    CommitsExactly(env, s.db, partitions, batch);
    forall id | id in ids ensures CanFit(env, s.db, partitions, EntryAt(s.stream, id)) {
      var i :| 0 <= i < |ids| && ids[i] == id;
      assert EntryFits(env, s.db, partitions, batch[i].entry, batch[i].parsedAt);
    }
  }

  lemma EventKeepsStuck(env: Env, s: Sys, e: Event, partitions: Partitions.Catalogue, p: nat, q: nat)
    requires Stuck(s, p, q) && MayHappen(env, s, e, partitions) && HoldsUp(env, s, e, partitions, p, q)
    ensures Stuck(Next(env, s, e), p, q)
  {
    if Enabled(s, e) {
      match e
      case Commit(c, readings) =>
        assert StuckIn(s.held[c], p, q);
        CommittedFit(env, s, c, readings, partitions);
      case Ack(c) => assert StuckIn(s.held[c], p, q);
      case Read(_, _) =>
      case Reclaim(_, _) =>
      case Request(_, _) =>
      case Configure(_, _) =>
      case Publish(_) =>
      case Crash(_) =>
    }
  }

  /** One entry that cannot commit - of an unknown tenant, or of a date without a partition -
      keeps every entry that is always taken together with it from ever being
      acknowledged. */
  lemma {:induction false} OneEntryHoldsUpTheRest(env: Env, s: Sys, events: seq<Event>, held: Holdings, p: nat, q: nat)
    requires Stuck(s, p, q) && RealRun(env, s, events, held) && HeldUpRun(env, s, events, held, p, q)
    ensures p !in RunAll(env, s, events).acked && q !in RunAll(env, s, events).acked
    ensures Stuck(RunAll(env, s, events), p, q)
  {
    if events != [] {
      var front := events[..|events| - 1];
      OneEntryHoldsUpTheRest(env, s, front, held, p, q);
      EventKeepsStuck(env, RunAll(env, s, front), events[|events| - 1], held(|events| - 1), p, q);
    }
  }
}
