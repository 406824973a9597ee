/** Which entries are acknowledged, over every run. */
module Acknowledged {
  import opened Model
  import opened Tables
  import opened IngestConsumer
  import opened ExactlyOnce
  import opened Delivery
  import IncidentsApi

  // ---- one step ---------------------------------------------------------------

  /** An acknowledgement takes every pending entry its consumer holds out of the pending
      list and marks it done; every other entry keeps its state, and nothing else changes
      but the consumer's memory. */
  lemma AckTakesOut(env: Env, s: Sys, c: Consumer, id: nat)
    requires Enabled(s, Ack(c))
    ensures var t := Next(env, s, Ack(c));
      && (id in s.held[c].ids && id in s.pending ==> id in t.acked && id !in t.pending)
      && (id !in s.held[c].ids ==>
            && (id in t.acked <==> id in s.acked)
            && (id in t.pending <==> id in s.pending)
            && (id in s.pending ==> t.pending[id] == s.pending[id]))
      && (id in s.acked ==> id in t.acked)
      && c !in t.held && (forall d | d != c :: d in t.held <==> d in s.held)
      && (forall d | d in t.held :: t.held[d] == s.held[d])
      && t.stream == s.stream && t.cursor == s.cursor && t.db == s.db && t.now == s.now
  {
    if id in s.held[c].ids {
      var i :| 0 <= i < |s.held[c].ids| && s.held[c].ids[i] == id;
    }
  }

  // The event gives entry `id` to consumer `c`: read on from the cursor, or reclaimed.
  predicate Takes(s: Sys, e: Event, c: Consumer, id: nat) {
    && Enabled(s, e)
    && ((e.Read? && e.reader == c && s.cursor <= id < s.cursor + e.count)
        || (e.Reclaim? && e.claimer == c && id in e.ids))
  }

  lemma {:induction false} AssignTo(pending: map<nat, Consumer>, ids: seq<nat>, c: Consumer, id: nat)
    ensures var after := Assign(pending, ids, c);
      && (id in ids ==> id in after && after[id] == c)
      && (id !in ids ==> (id in after <==> id in pending) && (id in pending ==> after[id] == pending[id]))
  {
    if ids != [] {
      AssignTo(pending, ids[..|ids| - 1], c, id);
      assert ids == ids[..|ids| - 1] + [ids[|ids| - 1]];
    }
  }

  lemma InRange(from: nat, count: nat, id: nat)
    ensures id in Range(from, count) <==> from <= id < from + count
  {
    if from <= id < from + count { assert Range(from, count)[id - from] == id; }
  }

  /** Reading or reclaiming: the consumer holds exactly what it took, uncommitted; all of it
      is pending with it, and every other entry stays where it was. */
  lemma TakingHolds(env: Env, s: Sys, e: Event, c: Consumer, id: nat)
    requires Enabled(s, e) && ((e.Read? && e.reader == c) || (e.Reclaim? && e.claimer == c))
    ensures var t := Next(env, s, e);
      && c in t.held && !t.held[c].committed
      && (id in t.held[c].ids <==> Takes(s, e, c, id))
      && (Takes(s, e, c, id) ==> id in t.pending && t.pending[id] == c)
      && (!Takes(s, e, c, id) ==>
            (id in t.pending <==> id in s.pending) && (id in s.pending ==> t.pending[id] == s.pending[id]))
      && t.acked == s.acked && t.stream == s.stream && t.db == s.db
      && t.cursor == s.cursor + if e.Read? then e.count else 0
  {
    if e.Read? {
      InRange(s.cursor, e.count, id);
      AssignTo(s.pending, Range(s.cursor, e.count), c, id);
    } else {
      AssignTo(s.pending, e.ids, c, id);
    }
  }

  /** A consumer that dies can neither commit nor acknowledge before it takes entries
      again, and what it held stays pending. */
  lemma CrashForgets(env: Env, s: Sys, c: Consumer, readings: seq<(Time, Time)>)
    requires Enabled(s, Crash(c))
    ensures var t := Next(env, s, Crash(c));
      && !Enabled(t, Commit(c, readings)) && !Enabled(t, Ack(c))
      && t.pending == s.pending && t.acked == s.acked && t.db == s.db && t.stream == s.stream && t.cursor == s.cursor
  {
  }

  // ---- over runs --------------------------------------------------------------

  // What a run publishes, in order.
  function PublishedBy(events: seq<Event>): seq<Entry> {
    if events == [] then []
    else
      var last := events[|events| - 1];
      PublishedBy(events[..|events| - 1]) + if last.Publish? then last.entries else []
  }

  /** The stream is what was published, in order; nothing is dropped from it. */
  lemma {:induction false} StreamIsPublished(env: Env, s: Sys, events: seq<Event>)
    ensures RunAll(env, s, events).stream == s.stream + PublishedBy(events)
    decreases |events|
  {
    hide Committed, Assign;
    if events != [] { StreamIsPublished(env, s, events[..|events| - 1]); }
  }

  // The state before event `i`; at the end, the last one.
  function Before(env: Env, s: Sys, events: seq<Event>, i: nat): Sys
    requires i <= |events|
  {
    RunAll(env, s, events[..i])
  }

  lemma NextBefore(env: Env, s: Sys, events: seq<Event>, i: nat)
    requires i < |events|
    ensures Before(env, s, events, i + 1) == Next(env, Before(env, s, events, i), events[i])
  {
    assert events[..i + 1][..i] == events[..i];
  }

  // Event `k` is an acknowledgement by `c`.
  predicate AcksAt(env: Env, s: Sys, events: seq<Event>, k: nat, c: Consumer)
    requires k < |events|
  {
    events[k] == Ack(c) && Enabled(Before(env, s, events, k), events[k])
  }

  predicate CommitsAt(env: Env, s: Sys, events: seq<Event>, j: nat, c: Consumer)
    requires j < |events|
  {
    events[j].Commit? && events[j].writer == c && Enabled(Before(env, s, events, j), events[j])
  }

  predicate TakesAt(env: Env, s: Sys, events: seq<Event>, i: nat, c: Consumer, id: nat)
    requires i < |events|
  {
    Takes(Before(env, s, events, i), events[i], c, id)
  }

  // From `i` on until `k`, consumer `c` is alive with what it took.
  ghost predicate Alive(env: Env, s: Sys, events: seq<Event>, i: nat, k: nat, c: Consumer)
    requires k <= |events|
  {
    forall x | i < x <= k :: c in Before(env, s, events, x).held
  }

  // One event and one consumer's memory.
  lemma HeldStep(env: Env, s: Sys, e: Event, c: Consumer)
    ensures var t := Next(env, s, e);
      && (c in s.held && c in t.held ==> t.held[c].ids == s.held[c].ids)
      && (c in s.held && c in t.held && t.held[c].committed && !s.held[c].committed ==>
            e.Commit? && e.writer == c && Enabled(s, e))
      && (c !in s.held && c in t.held ==>
            && !t.held[c].committed && Enabled(s, e)
            && ((e.Read? && e.reader == c) || (e.Reclaim? && e.claimer == c)))
  {
    hide Committed, Assign, Range;
  }

  // Whatever is held was taken by some event, held ever since, and committed since if it
  // is committed.
  lemma {:induction false} HeldSince(env: Env, s: Sys, events: seq<Event>, n: nat, c: Consumer)
      returns (i: nat, j: nat)
    requires s.held == map[] && n <= |events| && c in Before(env, s, events, n).held
    ensures i < n && Alive(env, s, events, i, n, c)
    ensures forall id | id in Before(env, s, events, n).held[c].ids :: TakesAt(env, s, events, i, c, id)
    ensures Before(env, s, events, n).held[c].committed ==> i < j < n && CommitsAt(env, s, events, j, c)
    decreases n
  {
    hide Next, RunAll, Takes;
    assert n > 0 by { StartOfRun(env, s, events); }
    var before, after := Before(env, s, events, n - 1), Before(env, s, events, n);
    NextBefore(env, s, events, n - 1);
    HeldStep(env, before, events[n - 1], c);
    if c in before.held {
      i, j := HeldSince(env, s, events, n - 1, c);
      if after.held[c].committed && !before.held[c].committed { j := n - 1; }
    } else {
      i, j := n - 1, 0;
      forall id | id in after.held[c].ids ensures TakesAt(env, s, events, i, c, id) {
        TakingHolds(env, before, events[n - 1], c, id);
      }
    }
  }

  lemma StartOfRun(env: Env, s: Sys, events: seq<Event>)
    ensures Before(env, s, events, 0) == s
  {
  }

  // What is taken is held for as long as the consumer lives.
  lemma {:induction false} HeldUntil(env: Env, s: Sys, events: seq<Event>, i: nat, k: nat, c: Consumer, id: nat)
    requires i < k <= |events| && TakesAt(env, s, events, i, c, id) && Alive(env, s, events, i, k, c)
    ensures id in Before(env, s, events, k).held[c].ids
    decreases k
  {
    hide Next, RunAll;
    NextBefore(env, s, events, k - 1);
    if k == i + 1 {
      TakingHolds(env, Before(env, s, events, i), events[i], c, id);
    } else {
      HeldUntil(env, s, events, i, k - 1, c, id);
      HeldStep(env, Before(env, s, events, k - 1), events[k - 1], c);
    }
  }

  // Acknowledged entries stay so, and only an acknowledgement adds to them.
  lemma AckedStep(env: Env, s: Sys, e: Event, id: nat)
    requires DeliveryOk(env, s)
    ensures id in Next(env, s, e).acked <==>
      id in s.acked || (e.Ack? && Enabled(s, e) && id in s.held[e.acker].ids)
  {
    hide Committed, Assign, Range, EntryLanded;
    if e.Ack? && Enabled(s, e) {
      AckTakesOut(env, s, e.acker, id);
      if id in s.held[e.acker].ids {
        var i :| 0 <= i < |s.held[e.acker].ids| && s.held[e.acker].ids[i] == id;
        assert s.held[e.acker].ids[i] < s.cursor;
      }
    }
  }

  ghost predicate AckedAt(env: Env, s: Sys, events: seq<Event>, k: nat, id: nat)
    requires k < |events|
  {
    events[k].Ack? && Enabled(Before(env, s, events, k), events[k])
    && id in Before(env, s, events, k).held[events[k].acker].ids
  }

  lemma {:induction false} AckedByEvent(env: Env, s: Sys, events: seq<Event>, n: nat, id: nat)
    requires TablesOk(s.db) && DeliveryOk(env, s) && n <= |events|
    ensures id in Before(env, s, events, n).acked <==>
      id in s.acked || exists k: nat :: k < n && AckedAt(env, s, events, k, id)
    decreases n
  {
    hide Next, RunAll, DeliveryOk, TablesOk;
    if n == 0 {
      StartOfRun(env, s, events);
    } else {
      AckedByEvent(env, s, events, n - 1, id);
      NothingIsLost(env, s, events[..n - 1]);
      NextBefore(env, s, events, n - 1);
      AckedStep(env, Before(env, s, events, n - 1), events[n - 1], id);
      assert id in Before(env, s, events, n).acked <==>
        id in Before(env, s, events, n - 1).acked || AckedAt(env, s, events, n - 1, id);
    }
  }

  // Consumer `c` took the entry by event `i`, committed by event `j`, acknowledged by event
  // `k`, and did not die in between.
  ghost predicate Finished(env: Env, s: Sys, events: seq<Event>, id: nat, c: Consumer, i: nat, j: nat, k: nat) {
    && i < j < k < |events|
    && TakesAt(env, s, events, i, c, id) && CommitsAt(env, s, events, j, c) && AcksAt(env, s, events, k, c)
    && Alive(env, s, events, i, k, c)
  }

  /** From an empty system, over every run: an entry is acknowledged if and only if some
      consumer took it, by reading or reclaiming, then committed and then acknowledged
      without dying in between; and once acknowledged it stays so. */
  lemma AckedExactly(env: Env, tenants: map<TenantId, TenantConfig>, now: Time, events: seq<Event>, id: nat)
    ensures var s := Initial(tenants, now);
      id in RunAll(env, s, events).acked <==> exists c, i, j, k :: Finished(env, s, events, id, c, i, j, k)
  {
    hide Next, RunAll, DeliveryOk, TablesOk, Takes;
    var s := Initial(tenants, now);
    InitialIsOk(env, tenants, now);
    AckedByEvent(env, s, events, |events|, id);
    assert events[..|events|] == events;
    if k: nat :| k < |events| && AckedAt(env, s, events, k, id) {
      var c := events[k].acker;
      AckNeedsCommit(env, Before(env, s, events, k), c);
      var i, j := HeldSince(env, s, events, k, c);
      assert Finished(env, s, events, id, c, i, j, k);
    }
    if c, i, j, k :| Finished(env, s, events, id, c, i, j, k) {
      HeldUntil(env, s, events, i, k, c, id);
      assert AckedAt(env, s, events, k, id);
    }
  }

  lemma AckNeedsCommit(env: Env, s: Sys, c: Consumer)
    ensures Enabled(s, Ack(c)) ==> c in s.held && s.held[c].committed
  {
  }

  lemma AckedStays(env: Env, s: Sys, events: seq<Event>, n: nat, id: nat)
    requires TablesOk(s.db) && DeliveryOk(env, s) && n <= |events| && id in RunAll(env, s, events[..n]).acked
    ensures id in RunAll(env, s, events).acked
  {
    hide Next, RunAll, DeliveryOk, TablesOk;
    AckedByEvent(env, s, events, n, id);
    AckedByEvent(env, s, events, |events|, id);
    assert events[..|events|] == events;
  }

  // ---- requests and settings in the running system ----------------------------

  /** A request or a change of settings takes effect on the tables and on nothing of the
      delivery. */
  lemma WritesTakeEffect(env: Env, s: Sys, r: IncidentsApi.Request, at: Time, tenant: TenantId, config: TenantConfig)
    requires s.now <= at && config.windowMinutes > 0
    ensures Next(env, s, Request(r, at)) == s.(db := IncidentsApi.Served(s.db, r, at), now := at)
    ensures var t := Next(env, s, Configure(tenant, config));
      && tenant in t.db.tenants && t.db.tenants[tenant] == config
      && (forall other | other != tenant ::
            (other in t.db.tenants <==> other in s.db.tenants)
            && (other in s.db.tenants ==> t.db.tenants[other] == s.db.tenants[other]))
      && t == s.(db := s.db.(tenants := t.db.tenants))
  {
  }
}
