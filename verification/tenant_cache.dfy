/** The tenant cache with stale-on-error, against the history of the database. */
module TenantCache {
  import opened Wrappers
  import opened Model

  type Slug = string

  datatype Cached = Cached(secret: string, status: string)

  // A tenant, or the knowledge that there is none.
  type Answer = Option<Cached>

  datatype Ttl = Ttl(soft: Time, negative: Time, hard: Time)

  datatype Stamped = Stamped(answer: Answer, fetchedAt: Time)

  type Entries = map<Slug, Stamped>

  function Freshness(answer: Answer, ttl: Ttl): Time {
    if answer.None? then ttl.negative else ttl.soft
  }

  predicate IsFresh(e: Stamped, now: Time, ttl: Ttl) {
    now - e.fetchedAt < Freshness(e.answer, ttl)
  }

  predicate IsExpired(e: Stamped, now: Time, ttl: Ttl) {
    !IsFresh(e, now, ttl) && now - e.fetchedAt > ttl.hard
  }

  // ---- one lookup, up to the load and after it --------------------------------

  // Answered from the cache, or waiting for the database with what may be served if
  // the load fails.
  datatype Begun = Hit(answer: Answer) | Waiting(slug: Slug, startedAt: Time, fallback: Option<Stamped>)

  function Begin(entries: Entries, slug: Slug, now: Time, ttl: Ttl): (Entries, Begun) {
    if slug !in entries then (entries, Waiting(slug, now, None))
    else if IsFresh(entries[slug], now, ttl) then (entries, Hit(entries[slug].answer))
    else if IsExpired(entries[slug], now, ttl) then (entries - {slug}, Waiting(slug, now, None))
    else (entries, Waiting(slug, now, Some(entries[slug])))
  }

  // The load's outcome; a failed load with nothing to fall back on is an error.
  datatype Loaded = Failed | Row(answer: Answer)

  function Finish(entries: Entries, w: Begun, loaded: Loaded): (Entries, Option<Answer>)
    requires w.Waiting?
  {
    match loaded
    case Row(answer) => (entries[w.slug := Stamped(answer, w.startedAt)], Some(answer))
    case Failed => (entries, if w.fallback.Some? then Some(w.fallback.value.answer) else None)
  }

  class TenantAuthCache {
    const ttl: Ttl
    var entries: Entries

    constructor (ttl: Ttl)
      ensures entries == map[] && this.ttl == ttl
    {
      this.ttl, entries := ttl, map[];
    }

    method Invalidate(slug: Option<Slug>)
      modifies this
      ensures entries == if slug.None? then map[] else old(entries) - {slug.value}
    {
      if slug.None? { entries := map[]; } else { entries := entries - {slug.value}; }
    }

    // Cached, and younger than the soft limit, or than the negative one for "no such tenant".
    predicate Serves(slug: Slug, now: Time)
      reads this
    {
      slug in entries && now - entries[slug].fetchedAt < if entries[slug].answer.Some? then ttl.soft else ttl.negative
    }

    // Cached, and not older than the hard limit.
    predicate FallsBack(slug: Slug, now: Time)
      reads this
    {
      slug in entries && now - entries[slug].fetchedAt <= ttl.hard
    }

    /** One whole lookup; `loaded` is what the database would answer if asked. */
    method Get(slug: Slug, now: Time, loaded: Loaded) returns (answer: Option<Answer>)
      modifies this
      ensures var (begun, b) := Begin(old(entries), slug, now, ttl);
        (entries, answer) == if b.Hit? then (begun, Some(b.answer)) else Finish(begun, b, loaded)
      ensures
        if old(Serves(slug, now)) then answer == Some(old(entries[slug].answer)) && entries == old(entries)
        else if loaded.Row? then
          answer == Some(loaded.answer) && entries == old(entries)[slug := Stamped(loaded.answer, now)]
        else if old(FallsBack(slug, now)) then answer == Some(old(entries[slug].answer)) && entries == old(entries)
        else answer == None && entries == old(entries) - {slug}
    {
      var cached: Option<Stamped> := if slug in entries then Some(entries[slug]) else None;
      if cached.Some? {
        var age := now - cached.value.fetchedAt;
        var limit := if cached.value.answer.None? then ttl.negative else ttl.soft;
        if age < limit { return Some(cached.value.answer); }
        if age > ttl.hard {
          entries := entries - {slug};
          cached := None;
        }
      }
      match loaded {
        case Failed =>
          return if cached.Some? then Some(cached.value.answer) else None;
        case Row(fetched) =>
          entries := entries[slug := Stamped(fetched, now)];
          return Some(fetched);
      }
    }
  }

  // ---- interleaved lookups ----------------------------------------------------

  type Ticket = nat

  // A lookup waiting for its load, and when the fallback it may serve was read.
  datatype Flight = Flight(w: Begun, fallbackRead: Option<Time>)

  // `readTimes` is history: when each cached answer was read from the database.
  datatype State = State(entries: Entries, readTimes: map<Slug, Time>, waiting: map<Ticket, Flight>, now: Time)

  // A load reads the database at one instant and stores what it read at another.
  datatype Event =
    | Start(ticket: Ticket, slug: Slug, at: Time)
    | End(ending: Ticket, readAt: Time, endAt: Time, up: bool)
    | Invalidate(dropped: Option<Slug>, droppedAt: Time)

  // What a finished lookup told its caller, when it had started, and when what it told
  // was read.
  datatype Reply = Reply(slug: Slug, startedAt: Time, result: Option<Answer>, loadFailed: bool, readAt: Option<Time>)

  predicate Enabled(s: State, e: Event) {
    match e
    case Start(ticket, _, at) => ticket !in s.waiting && s.now <= at
    case End(ticket, readAt, endAt, _) =>
      && ticket in s.waiting && s.waiting[ticket].w.Waiting?
      && s.waiting[ticket].w.startedAt <= readAt <= endAt && s.now <= endAt
    case Invalidate(_, at) => s.now <= at
  }

  // The database as a history: what it holds for a slug at each instant.  Updates are
  // its changes; outages are the loads that find it down.
  type History = (Slug, Time) -> Answer

  function ReadOf(readTimes: map<Slug, Time>, slug: Slug): Option<Time> {
    if slug in readTimes then Some(readTimes[slug]) else None
  }

  function Next(s: State, e: Event, world: History, ttl: Ttl): (State, Option<Reply>)
    requires Enabled(s, e)
  {
    match e
    case Start(ticket, slug, at) =>
      var (entries, begun) := Begin(s.entries, slug, at, ttl);
      var readTimes := if slug in entries then s.readTimes else s.readTimes - {slug};
      if begun.Hit? then
        (State(entries, readTimes, s.waiting, at),
         Some(Reply(slug, at, Some(begun.answer), false, ReadOf(readTimes, slug))))
      else
        var flight := Flight(begun, if begun.fallback.Some? then ReadOf(readTimes, slug) else None);
        (State(entries, readTimes, s.waiting[ticket := flight], at), None)
    case End(ticket, readAt, endAt, up) =>
      var w := s.waiting[ticket].w;
      var (entries, result) := Finish(s.entries, w, if up then Row(world(w.slug, readAt)) else Failed);
      (State(entries, if up then s.readTimes[w.slug := readAt] else s.readTimes, s.waiting - {ticket}, endAt),
       Some(Reply(w.slug, w.startedAt, result, !up, if up then Some(readAt) else s.waiting[ticket].fallbackRead)))
    case Invalidate(slug, at) =>
      (State(if slug.None? then map[] else s.entries - {slug.value},
             if slug.None? then map[] else s.readTimes - {slug.value}, s.waiting, at), None)
  }

  function RunFrom(s: State, events: seq<Event>, world: History, ttl: Ttl): State {
    if events == [] then s
    else
      var m, e := RunFrom(s, events[..|events| - 1], world, ttl), events[|events| - 1];
      if Enabled(m, e) then Next(m, e, world, ttl).0 else m
  }

  function RunAll(events: seq<Event>, world: History, ttl: Ttl): State {
    RunFrom(State(map[], map[], map[], 0), events, world, ttl)
  }

  // ---- every answer against the history ---------------------------------------

  // An answer stamped at one instant was read at another, not before, and is what the
  // database held then.
  ghost predicate TrueRead(world: History, slug: Slug, e: Stamped, read: Option<Time>, now: Time) {
    read.Some? && e.fetchedAt <= read.value <= now && world(slug, read.value) == e.answer
  }

  ghost predicate HonestFlight(flight: Flight, world: History, ttl: Ttl, now: Time) {
    && flight.w.Waiting? && flight.w.startedAt <= now
    && (flight.w.fallback.Some? ==>
          && flight.w.startedAt - flight.w.fallback.value.fetchedAt <= ttl.hard
          && TrueRead(world, flight.w.slug, flight.w.fallback.value, flight.fallbackRead, now))
  }

  ghost predicate Honest(s: State, world: History, ttl: Ttl) {
    && s.readTimes.Keys == s.entries.Keys
    && (forall slug | slug in s.entries :: TrueRead(world, slug, s.entries[slug], Some(s.readTimes[slug]), s.now))
    && (forall t | t in s.waiting :: HonestFlight(s.waiting[t], world, ttl, s.now))
  }

  lemma HonestAges(s: State, later: Time, world: History, ttl: Ttl)
    requires Honest(s, world, ttl) && s.now <= later
    ensures Honest(s.(now := later), world, ttl)
  {
    forall t | t in s.waiting ensures HonestFlight(s.waiting[t], world, ttl, later) {
      assert HonestFlight(s.waiting[t], world, ttl, s.now);
    }
  }

  lemma StepIsHonest(s: State, e: Event, world: History, ttl: Ttl)
    requires Honest(s, world, ttl) && Enabled(s, e)
    ensures Honest(Next(s, e, world, ttl).0, world, ttl)
    ensures s.now <= Next(s, e, world, ttl).0.now
  {
    match e
    case Start(_, _, at) => HonestAges(s, at, world, ttl);
    case End(_, _, at, _) => HonestAges(s, at, world, ttl);
    case Invalidate(_, at) => HonestAges(s, at, world, ttl);
  }

  lemma {:induction false} RunIsHonest(s: State, events: seq<Event>, world: History, ttl: Ttl)
    requires Honest(s, world, ttl)
    ensures Honest(RunFrom(s, events, world, ttl), world, ttl) && s.now <= RunFrom(s, events, world, ttl).now
  {
    if events != [] {
      var m, e := RunFrom(s, events[..|events| - 1], world, ttl), events[|events| - 1];
      RunIsHonest(s, events[..|events| - 1], world, ttl);
      if Enabled(m, e) { StepIsHonest(m, e, world, ttl); }
    }
  }

  // The age an answer may have, counted back from the start of its lookup.
  function Bound(r: Reply, ttl: Ttl): Time
    requires r.result.Some?
  {
    if r.loadFailed then ttl.hard else Max(Freshness(r.result.value, ttl), 0)
  }

  /** After any interleaving of lookups, reads, stores, updates, outages and
      invalidations, every answer given is what the database held for that slug when it
      was read, and it was read no earlier than the hard limit before the lookup began;
      when the load did not fail, no earlier than the soft limit, or the negative one for
      "no such tenant". */
  lemma AnswersAreRecent(events: seq<Event>, e: Event, world: History, ttl: Ttl)
    requires var s := RunAll(events, world, ttl);
      Enabled(s, e) && Next(s, e, world, ttl).1.Some? && Next(s, e, world, ttl).1.value.result.Some?
    ensures var (t, reply) := Next(RunAll(events, world, ttl), e, world, ttl);
      var r := reply.value;
      && r.readAt.Some? && r.result == Some(world(r.slug, r.readAt.value))
      && r.startedAt - Bound(r, ttl) <= r.readAt.value <= t.now
  {
    RunIsHonest(State(map[], map[], map[], 0), events, world, ttl);
    var s := RunAll(events, world, ttl);
    if e.End? {
      assert HonestFlight(s.waiting[e.ending], world, ttl, s.now);
    }
  }

  // ---- what an invalidation gives ---------------------------------------------

  // The reply, if any, that event `i` of a run gives.
  function ReplyAt(s: State, events: seq<Event>, i: nat, world: History, ttl: Ttl): Option<Reply>
    requires i < |events|
  {
    var m := RunFrom(s, events[..i], world, ttl);
    if Enabled(m, events[i]) then Next(m, events[i], world, ttl).1 else None
  }

  // It answers for the slug with something read before `v`.
  predicate IsOld(reply: Option<Reply>, slug: Slug, v: Time) {
    reply.Some? && reply.value.slug == slug && reply.value.result.Some?
    && reply.value.readAt.Some? && reply.value.readAt.value < v
  }

  // The end of a lookup that was in flight in state `s`, whose load had read before `v`,
  // or fails and leaves the fallback, itself read before.
  predicate EndsOld(s: State, m: State, e: Event, slug: Slug, v: Time) {
    && e.End? && Enabled(m, e)
    && e.ending in s.waiting && m.waiting[e.ending] == s.waiting[e.ending]
    && m.waiting[e.ending].w.slug == slug
    && if e.up then e.readAt < v
       else
         && m.waiting[e.ending].w.fallback.Some?
         && m.waiting[e.ending].fallbackRead.Some? && m.waiting[e.ending].fallbackRead.value < v
  }

  // Nothing read before `v` is cached, and lookups begun since carry nothing so old.
  ghost predicate NothingOld(s: State, m: State, slug: Slug, v: Time) {
    && v <= m.now
    && (slug in m.readTimes ==> v <= m.readTimes[slug])
    && forall t | t in m.waiting && m.waiting[t].w.Waiting? && m.waiting[t].w.slug == slug ::
         || (t in s.waiting && m.waiting[t] == s.waiting[t])
         || (v <= m.waiting[t].w.startedAt
             && (m.waiting[t].fallbackRead.Some? ==> v <= m.waiting[t].fallbackRead.value))
  }

  lemma OldEnd(s: State, m: State, e: Event, slug: Slug, v: Time, world: History, ttl: Ttl)
    requires Honest(m, world, ttl) && NothingOld(s, m, slug, v) && Enabled(m, e) && e.End?
    ensures IsOld(Next(m, e, world, ttl).1, slug, v) <==> EndsOld(s, m, e, slug, v)
    ensures !EndsOld(s, m, e, slug, v) ==> NothingOld(s, Next(m, e, world, ttl).0, slug, v)
  {
    assert HonestFlight(m.waiting[e.ending], world, ttl, m.now);
  }

  lemma OldStep(s: State, m: State, e: Event, slug: Slug, v: Time, world: History, ttl: Ttl)
    requires Honest(m, world, ttl) && NothingOld(s, m, slug, v) && Enabled(m, e)
    ensures IsOld(Next(m, e, world, ttl).1, slug, v) <==> EndsOld(s, m, e, slug, v)
    ensures !EndsOld(s, m, e, slug, v) ==> NothingOld(s, Next(m, e, world, ttl).0, slug, v)
  {
    if e.End? { OldEnd(s, m, e, slug, v, world, ttl); }
  }

  ghost predicate SomeEndsOld(s: State, events: seq<Event>, slug: Slug, v: Time, world: History, ttl: Ttl) {
    exists i :: 0 <= i < |events| && EndsOldAt(s, events, i, slug, v, world, ttl)
  }

  predicate EndsOldAt(s: State, events: seq<Event>, i: nat, slug: Slug, v: Time, world: History, ttl: Ttl)
    requires i < |events|
  {
    EndsOld(s, RunFrom(s, events[..i], world, ttl), events[i], slug, v)
  }

  lemma {:induction false} NothingOldSince(s: State, events: seq<Event>, n: nat, slug: Slug, v: Time,
      world: History, ttl: Ttl)
    requires Honest(s, world, ttl) && NothingOld(s, s, slug, v) && n <= |events|
    requires forall i | 0 <= i < n :: !EndsOldAt(s, events, i, slug, v, world, ttl)
    ensures NothingOld(s, RunFrom(s, events[..n], world, ttl), slug, v)
  {
    if n > 0 {
      NothingOldSince(s, events, n - 1, slug, v, world, ttl);
      assert events[..n][..n - 1] == events[..n - 1];
      var m := RunFrom(s, events[..n - 1], world, ttl);
      RunIsHonest(s, events[..n - 1], world, ttl);
      assert !EndsOldAt(s, events, n - 1, slug, v, world, ttl);
      if Enabled(m, events[n - 1]) { OldStep(s, m, events[n - 1], slug, v, world, ttl); }
    }
  }

  /** After an invalidation, exactly: an answer read before it is given at some later
      event if and only if some lookup in flight when it came ends with what its load had
      read before, or serves its fallback. */
  lemma OldAnswersExactly(before: State, dropped: Option<Slug>, v: Time, slug: Slug, events: seq<Event>,
      world: History, ttl: Ttl)
    requires Honest(before, world, ttl) && Enabled(before, Invalidate(dropped, v))
    requires dropped.None? || dropped.value == slug
    ensures var s := Next(before, Invalidate(dropped, v), world, ttl).0;
      (exists i :: 0 <= i < |events| && IsOld(ReplyAt(s, events, i, world, ttl), slug, v)) <==>
        SomeEndsOld(s, events, slug, v, world, ttl)
  {
    var s := Next(before, Invalidate(dropped, v), world, ttl).0;
    StepIsHonest(before, Invalidate(dropped, v), world, ttl);
    if SomeEndsOld(s, events, slug, v, world, ttl) {
      var i :| 0 <= i < |events| && EndsOldAt(s, events, i, slug, v, world, ttl);
      RunIsHonest(s, events[..i], world, ttl);
      EndingOldIsOld(s, RunFrom(s, events[..i], world, ttl), events[i], slug, v, world, ttl);
      assert IsOld(ReplyAt(s, events, i, world, ttl), slug, v);
    } else {
      forall i | 0 <= i < |events| ensures !IsOld(ReplyAt(s, events, i, world, ttl), slug, v) {
        NothingOldSince(s, events, i, slug, v, world, ttl);
        RunIsHonest(s, events[..i], world, ttl);
        assert !EndsOldAt(s, events, i, slug, v, world, ttl);
        var m := RunFrom(s, events[..i], world, ttl);
        if Enabled(m, events[i]) { OldStep(s, m, events[i], slug, v, world, ttl); }
      }
    }
  }

  lemma EndingOldIsOld(s: State, m: State, e: Event, slug: Slug, v: Time, world: History, ttl: Ttl)
    requires EndsOld(s, m, e, slug, v)
    ensures IsOld(Next(m, e, world, ttl).1, slug, v)
  {
  }

  // ---- when old answers can still be given ------------------------------------

  // A lookup in flight that may yet answer with something read before `c`.
  predicate MayEndOld(flight: Flight, slug: Slug, c: Time) {
    && flight.w.Waiting? && flight.w.slug == slug
    && (flight.w.startedAt < c
        || (flight.w.fallback.Some? && flight.fallbackRead.Some? && flight.fallbackRead.value < c))
  }

  // Something read before `c` is cached and still served.
  predicate ServesOld(s: State, slug: Slug, c: Time, ttl: Ttl) {
    slug in s.entries && slug in s.readTimes && s.readTimes[slug] < c && !IsExpired(s.entries[slug], s.now, ttl)
  }

  ghost predicate CanAnswerOld(s: State, slug: Slug, c: Time, world: History, ttl: Ttl) {
    exists events: seq<Event>, i: nat :: i < |events| && IsOld(ReplyAt(s, events, i, world, ttl), slug, c)
  }

  // Nothing old can come any more: what is cached is too old to serve even on an error.
  ghost predicate NoneOldLeft(m: State, slug: Slug, c: Time, ttl: Ttl) {
    && c <= m.now
    && (slug in m.entries && slug in m.readTimes && m.readTimes[slug] < c ==> IsExpired(m.entries[slug], m.now, ttl))
    && forall t | t in m.waiting :: !MayEndOld(m.waiting[t], slug, c)
  }

  lemma NoneOldStep(m: State, e: Event, slug: Slug, c: Time, world: History, ttl: Ttl)
    requires Honest(m, world, ttl) && NoneOldLeft(m, slug, c, ttl) && Enabled(m, e)
    ensures !IsOld(Next(m, e, world, ttl).1, slug, c)
    ensures NoneOldLeft(Next(m, e, world, ttl).0, slug, c, ttl)
  {
    if e.End? {
      assert HonestFlight(m.waiting[e.ending], world, ttl, m.now);
      assert !MayEndOld(m.waiting[e.ending], slug, c);
    }
  }

  lemma {:induction false} NoneOldAfter(s: State, events: seq<Event>, slug: Slug, c: Time, world: History, ttl: Ttl)
    requires Honest(s, world, ttl) && NoneOldLeft(s, slug, c, ttl)
    ensures NoneOldLeft(RunFrom(s, events, world, ttl), slug, c, ttl)
  {
    if events != [] {
      var front := events[..|events| - 1];
      NoneOldAfter(s, front, slug, c, world, ttl);
      RunIsHonest(s, front, world, ttl);
      var m, e := RunFrom(s, front, world, ttl), events[|events| - 1];
      if Enabled(m, e) { NoneOldStep(m, e, slug, c, world, ttl); }
    }
  }

  function From(waiting: map<Ticket, Flight>, from: nat): set<Ticket> { set t | t in waiting && from <= t }

  lemma {:induction false} FreeTicket(waiting: map<Ticket, Flight>, from: nat) returns (t: Ticket)
    ensures t !in waiting
    decreases |From(waiting, from)|
  {
    if from !in waiting {
      t := from;
    } else {
      assert from in From(waiting, from);
      assert From(waiting, from + 1) == From(waiting, from) - {from};
      t := FreeTicket(waiting, from + 1);
    }
  }

  lemma OneEvent(s: State, e: Event, world: History, ttl: Ttl)
    ensures ReplyAt(s, [e], 0, world, ttl) == if Enabled(s, e) then Next(s, e, world, ttl).1 else None
  {
    assert [e][..0] == [];
  }

  lemma TwoEvents(s: State, a: Event, b: Event, world: History, ttl: Ttl)
    requires Enabled(s, a)
    ensures var m := Next(s, a, world, ttl).0;
      ReplyAt(s, [a, b], 1, world, ttl) == if Enabled(m, b) then Next(m, b, world, ttl).1 else None
  {
    assert [a, b][..1] == [a] && [a][..0] == [];
    assert RunFrom(s, [a], world, ttl) == Next(s, a, world, ttl).0;
  }

  lemma ServedOld(s: State, slug: Slug, c: Time, world: History, ttl: Ttl)
    requires Honest(s, world, ttl) && c == s.now && ServesOld(s, slug, c, ttl)
    ensures CanAnswerOld(s, slug, c, world, ttl)
  {
    var t := FreeTicket(s.waiting, 0);
    var begin := Start(t, slug, c);
    if IsFresh(s.entries[slug], c, ttl) {
      OneEvent(s, begin, world, ttl);
      assert IsOld(ReplyAt(s, [begin], 0, world, ttl), slug, c);
    } else {
      var fail := End(t, c, c, false);
      TwoEvents(s, begin, fail, world, ttl);
      assert IsOld(ReplyAt(s, [begin, fail], 1, world, ttl), slug, c);
    }
  }

  lemma EndedOld(s: State, t: Ticket, slug: Slug, c: Time, world: History, ttl: Ttl)
    requires Honest(s, world, ttl) && c == s.now && t in s.waiting && MayEndOld(s.waiting[t], slug, c)
    ensures CanAnswerOld(s, slug, c, world, ttl)
  {
    var w := s.waiting[t].w;
    assert HonestFlight(s.waiting[t], world, ttl, s.now);
    var end := End(t, w.startedAt, c, w.startedAt < c);
    OneEvent(s, end, world, ttl);
    assert IsOld(ReplyAt(s, [end], 0, world, ttl), slug, c);
  }

  /** Whether an answer read before the present instant can still be given, exactly: if and
      only if one is cached and not past the hard limit, or a lookup of it is in flight
      that began before or holds a fallback read before. A rotated secret stops working
      at its commit exactly when neither is so then. */
  lemma OldCanBeAnsweredExactly(s: State, slug: Slug, world: History, ttl: Ttl)
    requires Honest(s, world, ttl)
    ensures CanAnswerOld(s, slug, s.now, world, ttl) <==>
      ServesOld(s, slug, s.now, ttl) || exists t :: t in s.waiting && MayEndOld(s.waiting[t], slug, s.now)
  {
    if ServesOld(s, slug, s.now, ttl) {
      ServedOld(s, slug, s.now, world, ttl);
    } else if t :| t in s.waiting && MayEndOld(s.waiting[t], slug, s.now) {
      EndedOld(s, t, slug, s.now, world, ttl);
    } else {
      forall events: seq<Event>, i: nat | i < |events|
        ensures !IsOld(ReplyAt(s, events, i, world, ttl), slug, s.now)
      {
        NoneOldAfter(s, events[..i], slug, s.now, world, ttl);
        RunIsHonest(s, events[..i], world, ttl);
        var m := RunFrom(s, events[..i], world, ttl);
        if Enabled(m, events[i]) { NoneOldStep(m, events[i], slug, s.now, world, ttl); }
      }
    }
  }

  // ---- the old secret outlives its rotation -----------------------------------

  // A secret changed at one instant.
  function Rotated(old_: Answer, new_: Answer, at: Time): History {
    (slug: Slug, now: Time) => if now < at then old_ else new_
  }

  // Invalidated after the change: a load that had read before stores after.
  lemma LateStoreOutlivesInvalidation(old_: Answer, new_: Answer, ttl: Ttl)
    requires old_ != new_ && Freshness(old_, ttl) > 8
    ensures var world := Rotated(old_, new_, 5);
      var events := [Start(0, "a", 0), Invalidate(Some("a"), 6), End(0, 4, 7, true), Start(1, "a", 8)];
      && ReplyAt(State(map[], map[], map[], 0), events, 3, world, ttl)
           == Some(Reply("a", 8, Some(old_), false, Some(4)))
      && world("a", 8) == new_
  {
    var world := Rotated(old_, new_, 5);
    RunOfThree(State(map[], map[], map[], 0), Start(0, "a", 0), Invalidate(Some("a"), 6), End(0, 4, 7, true),
               Start(1, "a", 8), world, ttl);
  }

  // Invalidated before the change commits, as a rotation does it: a lookup in between
  // caches the old secret again.
  lemma LookupOutlivesRotation(old_: Answer, new_: Answer, ttl: Ttl)
    requires old_ != new_ && Freshness(old_, ttl) > 8
    ensures var world := Rotated(old_, new_, 6);
      var events := [Invalidate(Some("a"), 2), Start(0, "a", 3), End(0, 4, 5, true), Start(1, "a", 8)];
      && ReplyAt(State(map[], map[], map[], 0), events, 3, world, ttl)
           == Some(Reply("a", 8, Some(old_), false, Some(4)))
      && world("a", 8) == new_
  {
    var world := Rotated(old_, new_, 6);
    RunOfThree(State(map[], map[], map[], 0), Invalidate(Some("a"), 2), Start(0, "a", 3), End(0, 4, 5, true),
               Start(1, "a", 8), world, ttl);
  }

  function Stepped(s: State, e: Event, world: History, ttl: Ttl): State {
    if Enabled(s, e) then Next(s, e, world, ttl).0 else s
  }

  lemma RunOfThree(s: State, a: Event, b: Event, c: Event, d: Event, world: History, ttl: Ttl)
    ensures var m := Stepped(Stepped(Stepped(s, a, world, ttl), b, world, ttl), c, world, ttl);
      ReplyAt(s, [a, b, c, d], 3, world, ttl) == if Enabled(m, d) then Next(m, d, world, ttl).1 else None
  {
    assert [a, b, c, d][..3] == [a, b, c] && [a, b, c][..2] == [a, b] && [a, b][..1] == [a] && [a][..0] == [];
    assert RunFrom(s, [a], world, ttl) == Stepped(s, a, world, ttl);
    assert RunFrom(s, [a, b], world, ttl) == Stepped(Stepped(s, a, world, ttl), b, world, ttl);
  }

  /** Past the hard limit a failing load is an error and never an answer: a lookup whose
      load fails is refused exactly when, as it began, nothing was cached for the slug
      or what was cached was older than the hard limit. */
  lemma RefusedExactly(entries: Entries, slug: Slug, now: Time, later: Entries, ttl: Ttl)
    requires Begin(entries, slug, now, ttl).1.Waiting?
    ensures Finish(later, Begin(entries, slug, now, ttl).1, Failed).1.None? <==>
      slug !in entries || now - entries[slug].fetchedAt > ttl.hard
    ensures Finish(later, Begin(entries, slug, now, ttl).1, Failed).0 == later
  {
  }
}
