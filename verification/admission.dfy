/** The admission gate: request authentication and the atomic publish script. */
module Admission {
  import opened Wrappers
  import opened Model

  // ---- what is signed ---------------------------------------------------------

  // The timestamp header as sent, and the integer it reads as, if any.
  datatype Header = Header(text: string, seconds: Option<int>)

  // The digest is idealised as injective in what it covers.
  datatype Signature = Signature(secret: string, header: Header, body: string)

  datatype Settings = Settings(skewSeconds: nat, limit: nat, windowSeconds: nat)
  {
    function Window(): Time { windowSeconds * SECOND }
    function NonceTtl(): Time { (skewSeconds * 2 + SLACK_SECONDS) * SECOND }
  }

  const SLACK_SECONDS := 5

  function Distance(a: int, b: int): int { if a <= b then b - a else a - b }

  predicate TimestampIsFresh(header: Header, now: Time, settings: Settings) {
    header.seconds.Some? && Distance(now, header.seconds.value * SECOND) <= settings.skewSeconds * SECOND
  }

  /** A timestamp is fresh exactly when it reads as a number of seconds not more than the
      skew before or after now. */
  lemma FreshExactly(header: Header, now: Time, settings: Settings)
    ensures TimestampIsFresh(header, now, settings) <==>
      && header.seconds.Some?
      && (header.seconds.value - settings.skewSeconds) * 1_000_000 <= now
      && now <= (header.seconds.value + settings.skewSeconds) * 1_000_000
  {
  }

  // ---- authentication ---------------------------------------------------------

  datatype Rejection = UnknownTenant | TenantInactive | BadSignature | MalformedSignature
                     | StaleTimestamp | DisallowedIp | LookupUnavailable

  datatype Client = Client(secret: string, active: bool)

  // The lookup fails, finds nobody, or finds a client.
  datatype Lookup = Unavailable | Found(client: Option<Client>)

  // Stands in for the secret of a tenant that does not exist.
  const DUMMY_SECRET := "-"

  /** Decides one request after making every check, never before: the reason is kept
      in a variable and the first one found stands. */
  method Authenticate(lookup: Lookup, header: Header, body: string, prefixed: bool, presented: Signature,
                      ipAllowed: bool, now: Time, settings: Settings)
      returns (reason: Option<Rejection>)
    ensures reason.None? <==>
      && lookup.Found? && lookup.client.Some?
      && prefixed
      && TimestampIsFresh(header, now, settings)
      && presented == Signature(lookup.client.value.secret, header, body)
      && ipAllowed
      && lookup.client.value.active
    ensures reason == Some(LookupUnavailable) <==> lookup.Unavailable?
    ensures reason == Some(MalformedSignature) <==> lookup.Found? && !prefixed
    ensures reason == Some(StaleTimestamp) <==>
      lookup.Found? && prefixed && !TimestampIsFresh(header, now, settings)
    ensures reason == Some(UnknownTenant) <==>
      lookup == Found(None) && prefixed && TimestampIsFresh(header, now, settings)
    ensures lookup.Found? && lookup.client.Some? && prefixed && TimestampIsFresh(header, now, settings) ==>
      var signed := presented == Signature(lookup.client.value.secret, header, body);
      && (reason == Some(BadSignature) <==> !signed)
      && (reason == Some(DisallowedIp) <==> signed && !ipAllowed)
      && (reason == Some(TenantInactive) <==> signed && ipAllowed && !lookup.client.value.active)
  {
    reason := if lookup.Unavailable? then Some(LookupUnavailable) else None;
    var client: Option<Client> := if lookup.Found? then lookup.client else None;
    if !prefixed && reason.None? { reason := Some(MalformedSignature); }
    if !TimestampIsFresh(header, now, settings) && reason.None? { reason := Some(StaleTimestamp); }
    var secret := if client.Some? then client.value.secret else DUMMY_SECRET;
    var matches := presented == Signature(secret, header, body);
    var found: Option<Rejection> := None;
    if reason == Some(LookupUnavailable) {
    } else if client.None? {
      found := Some(UnknownTenant);
    } else if !matches {
      found := Some(BadSignature);
    } else if !ipAllowed {
      found := Some(DisallowedIp);
    } else if !client.value.active {
      found := Some(TenantInactive);
    }
    if reason.None? { reason := found; }
  }

  // ---- the publish script -----------------------------------------------------

  datatype Counter = Counter(used: int, expires: Option<Time>)

  datatype Queued = Queued(tenant: TenantId, payload: string)

  datatype Redis = Redis(nonces: map<(TenantId, Signature), Time>, counters: map<TenantId, Counter>,
                         stream: seq<Queued>)

  // A key past its expiry is as good as absent.
  predicate NonceLive(r: Redis, key: (TenantId, Signature), now: Time) {
    key in r.nonces && now <= r.nonces[key]
  }

  predicate CounterLive(r: Redis, tenant: TenantId, now: Time) {
    tenant in r.counters && (r.counters[tenant].expires.None? || now <= r.counters[tenant].expires.value)
  }

  const REPLAY := -2
  const RATE_LIMITED := -1

  function Counted(r: Redis, now: Time, tenant: TenantId, count: nat, settings: Settings): Counter {
    var before := if CounterLive(r, tenant, now) then r.counters[tenant] else Counter(0, None);
    var used := before.used + count;
    Counter(used, if used == count then Some(now + settings.Window()) else before.expires)
  }

  function Tagged(tenant: TenantId, payloads: seq<string>): seq<Queued> {
    seq(|payloads|, i requires 0 <= i < |payloads| => Queued(tenant, payloads[i]))
  }

  function Published(r: Redis, now: Time, tenant: TenantId, signature: Signature, payloads: seq<string>,
                     settings: Settings): (Redis, int) {
    if NonceLive(r, (tenant, signature), now) then (r, REPLAY)
    else
      var counter := Counted(r, now, tenant, |payloads|, settings);
      var nonces := r.nonces[(tenant, signature) := now + settings.NonceTtl()];
      var spent := Redis(nonces, r.counters[tenant := counter], r.stream);
      if counter.used > settings.limit then (spent, RATE_LIMITED)
      else (spent.(stream := r.stream + Tagged(tenant, payloads)), |payloads|)
  }

  class Store {
    var nonces: map<(TenantId, Signature), Time>
    var counters: map<TenantId, Counter>
    var stream: seq<Queued>

    function State(): Redis
      reads this
    {
      Redis(nonces, counters, stream)
    }

    // The signature was published before, and its nonce has not run out.
    predicate IsReplay(tenant: TenantId, signature: Signature, now: Time)
      reads this
    {
      (tenant, signature) in nonces && now <= nonces[(tenant, signature)]
    }

    // What the tenant's counter stands at, unless it has run out.
    function UsedAlready(tenant: TenantId, now: Time): int
      reads this
    {
      if tenant in counters && (counters[tenant].expires.Some? ==> now <= counters[tenant].expires.value)
      then counters[tenant].used else 0
    }

    /** The script, run atomically: nonce, counter, then one append per payload. */
    method Publish(now: Time, tenant: TenantId, signature: Signature, payloads: seq<string>, settings: Settings)
        returns (code: int)
      modifies this
      ensures (State(), code) == Published(old(State()), now, tenant, signature, payloads, settings)
      ensures code < 0 ==> stream == old(stream)
      ensures code >= 0 ==> code == |payloads| && stream == old(stream) + Tagged(tenant, payloads)
      ensures code >= 0 ==>
        forall i | 0 <= i < |payloads| :: stream[|old(stream)| + i] == Queued(tenant, payloads[i])
      ensures code == if old(IsReplay(tenant, signature, now)) then -2
        else if old(UsedAlready(tenant, now)) + |payloads| > settings.limit then -1 else |payloads|
      ensures code == -2 ==> State() == old(State())
      ensures code != -2 ==>
        && nonces == old(nonces)[(tenant, signature) := now + (settings.skewSeconds * 2 + 5) * 1_000_000]
        && tenant in counters && counters == old(counters)[tenant := counters[tenant]]
        && counters[tenant].used == old(UsedAlready(tenant, now)) + |payloads|
        && (if old(UsedAlready(tenant, now)) == 0 then
              counters[tenant].expires == Some(now + settings.windowSeconds * 1_000_000)
            else counters[tenant].expires == old(counters[tenant].expires))
    {
      if NonceLive(State(), (tenant, signature), now) { return REPLAY; }
      nonces := nonces[(tenant, signature) := now + settings.NonceTtl()];
      var counter := if CounterLive(State(), tenant, now) then counters[tenant] else Counter(0, None);
      counter := counter.(used := counter.used + |payloads|);
      if counter.used == |payloads| {
        counter := counter.(expires := Some(now + settings.Window()));
      }
      counters := counters[tenant := counter];
      if counter.used > settings.limit { return RATE_LIMITED; }
      for i := 0 to |payloads|
        invariant stream == old(stream) + Tagged(tenant, payloads)[..i]
        invariant nonces == old(nonces)[(tenant, signature) := now + settings.NonceTtl()]
        invariant counters == old(counters)[tenant := counter]
      {
        stream := stream + [Queued(tenant, payloads[i])];
      }
      assert Tagged(tenant, payloads)[..|payloads|] == Tagged(tenant, payloads);
      code := |payloads|;
    }
  }

  // ---- runs of requests -------------------------------------------------------

  // One authenticated-or-not presentation: checked at `authAt`, published at `publishAt`.
  datatype Attempt = Attempt(tenant: TenantId, signature: Signature, payloads: seq<string>,
                             authAt: Time, publishAt: Time)

  datatype Outcome = Outcome(at: Time, tenant: TenantId, signature: Signature, code: int)

  datatype Gate = Gate(redis: Redis, log: seq<Outcome>)

  const STALE := -3

  function Serve(g: Gate, a: Attempt, settings: Settings): Gate {
    if !TimestampIsFresh(a.signature.header, a.authAt, settings) then
      Gate(g.redis, g.log + [Outcome(a.publishAt, a.tenant, a.signature, STALE)])
    else
      var (r, code) := Published(g.redis, a.publishAt, a.tenant, a.signature, a.payloads, settings);
      Gate(r, g.log + [Outcome(a.publishAt, a.tenant, a.signature, code)])
  }

  function ServeAll(attempts: seq<Attempt>, settings: Settings): Gate {
    if attempts == [] then Gate(Redis(map[], map[], []), [])
    else Serve(ServeAll(attempts[..|attempts| - 1], settings), attempts[|attempts| - 1], settings)
  }

  // ---- no signed request is queued twice --------------------------------------

  // From check to publish within a latency.
  ghost predicate Within(a: Attempt, latency: Time) {
    a.authAt <= a.publishAt <= a.authAt + latency
  }

  // In no more than the slack the nonce is given.
  ghost predicate Prompt(a: Attempt) { Within(a, SLACK_SECONDS * SECOND) }

  // Every spent nonce outlives the last instant its timestamp can pass as fresh, and
  // the slack after it.
  ghost predicate NoncesOutlive(r: Redis, settings: Settings) {
    forall key | key in r.nonces ::
      && key.1.header.seconds.Some?
      && (key.1.header.seconds.value + settings.skewSeconds + SLACK_SECONDS) * SECOND <= r.nonces[key]
  }

  // Whatever passed the gate has left a nonce behind.
  ghost predicate PassedLeavesNonce(g: Gate) {
    forall i | 0 <= i < |g.log| && g.log[i].code >= 0 :: (g.log[i].tenant, g.log[i].signature) in g.redis.nonces
  }

  lemma SpentMeansReplay(r: Redis, a: Attempt, settings: Settings)
    requires NoncesOutlive(r, settings) && Prompt(a)
    requires TimestampIsFresh(a.signature.header, a.authAt, settings)
    requires (a.tenant, a.signature) in r.nonces
    ensures Published(r, a.publishAt, a.tenant, a.signature, a.payloads, settings) == (r, REPLAY)
  {
  }

  lemma {:induction false} NoncesHold(attempts: seq<Attempt>, settings: Settings)
    requires forall i | 0 <= i < |attempts| :: Prompt(attempts[i])
    ensures NoncesOutlive(ServeAll(attempts, settings).redis, settings)
    ensures PassedLeavesNonce(ServeAll(attempts, settings))
    ensures |ServeAll(attempts, settings).log| == |attempts|
  {
    if attempts != [] {
      NoncesHold(attempts[..|attempts| - 1], settings);
    }
  }

  lemma {:induction false} LogNamesAttempts(attempts: seq<Attempt>, settings: Settings, i: nat)
    requires i < |attempts|
    ensures var log := ServeAll(attempts, settings).log;
      && |log| == |attempts|
      && log[i].tenant == attempts[i].tenant && log[i].signature == attempts[i].signature
      && log[i].at == attempts[i].publishAt
  {
    if i < |attempts| - 1 {
      LogNamesAttempts(attempts[..|attempts| - 1], settings, i);
    } else if |attempts| > 1 {
      LogNamesAttempts(attempts[..|attempts| - 1], settings, 0);
    }
  }

  lemma {:induction false} SecondIsRefused(attempts: seq<Attempt>, settings: Settings, i: nat, j: nat)
    requires forall i | 0 <= i < |attempts| :: Prompt(attempts[i])
    requires i < j < |attempts|
    requires SameRequest(attempts[i], attempts[j])
    ensures |ServeAll(attempts, settings).log| == |attempts|
    ensures ServeAll(attempts, settings).log[i].code < 0 || ServeAll(attempts, settings).log[j].code < 0
  {
    var n := |attempts| - 1;
    var front, g := attempts[..n], ServeAll(attempts[..n], settings);
    NoncesHold(front, settings);
    NoncesHold(attempts, settings);
    if j < n {
      SecondIsRefused(front, settings, i, j);
    } else {
      LogNamesAttempts(front, settings, i);
      if g.log[i].code >= 0 && TimestampIsFresh(attempts[n].signature.header, attempts[n].authAt, settings) {
        SpentMeansReplay(g.redis, attempts[n], settings);
      }
    }
  }

  predicate SameRequest(a: Attempt, b: Attempt) { a.tenant == b.tenant && a.signature == b.signature }

  // No signature passes the gate twice for one tenant.
  ghost predicate QueuedAtMostOnce(attempts: seq<Attempt>, log: seq<Outcome>) {
    |log| == |attempts| &&
    forall i, j | 0 <= i < j < |attempts| && SameRequest(attempts[i], attempts[j]) ::
      log[i].code < 0 || log[j].code < 0
  }

  /** In any run whose requests go from check to publish within five seconds, a
      signature is queued for a tenant at most once - however long the run, and
      whatever the clock does between requests. */
  lemma NoRequestIsQueuedTwice(attempts: seq<Attempt>, settings: Settings)
    requires forall i | 0 <= i < |attempts| :: Prompt(attempts[i])
    ensures QueuedAtMostOnce(attempts, ServeAll(attempts, settings).log)
  {
    NoncesHold(attempts, settings);
    forall i, j | 0 <= i < j < |attempts| && SameRequest(attempts[i], attempts[j])
      ensures ServeAll(attempts, settings).log[i].code < 0 || ServeAll(attempts, settings).log[j].code < 0
    {
      SecondIsRefused(attempts, settings, i, j);
    }
  }

  // Slower than that by any amount, a request is queued twice.
  lemma SlowPublishIsQueuedTwice(settings: Settings, latency: Time) returns (attempts: seq<Attempt>)
    requires settings.limit >= 2 && latency > SLACK_SECONDS * SECOND
    ensures forall i | 0 <= i < |attempts| :: Within(attempts[i], latency)
    ensures !QueuedAtMostOnce(attempts, ServeAll(attempts, settings).log)
  {
    var skew := settings.skewSeconds * SECOND;
    var signature := Signature("", Header("0", Some(0)), "");
    var first := Attempt("", signature, ["a"], -skew, -skew);
    var second := Attempt("", signature, ["a"], skew, skew + latency);
    attempts := [first, second];
    assert [first, second][..1] == [first] && [first][..0] == [];
    assert ServeAll([], settings) == Gate(Redis(map[], map[], []), []);
    var g := ServeAll([first], settings);
    assert g == Serve(ServeAll([], settings), first, settings);
    assert g.redis.counters[""].used == 1;
    var log := ServeAll(attempts, settings).log;
    assert log[0].code == 1 && log[1].code == 1;
  }

  ghost predicate SafeUpTo(latency: Time, settings: Settings) {
    forall attempts | (forall i | 0 <= i < |attempts| :: Within(attempts[i], latency)) ::
      QueuedAtMostOnce(attempts, ServeAll(attempts, settings).log)
  }

  /** Exactly: every run within a latency is free of double queueing if and only if the
      latency is no more than the five seconds added to the nonce's life. */
  lemma SafeExactlyWithinSlack(latency: Time, settings: Settings)
    requires settings.limit >= 2
    ensures SafeUpTo(latency, settings) <==> latency <= 5 * 1_000_000
  {
    if latency <= SLACK_SECONDS * SECOND {
      forall attempts | forall i | 0 <= i < |attempts| :: Within(attempts[i], latency)
        ensures QueuedAtMostOnce(attempts, ServeAll(attempts, settings).log)
      {
        assert forall i | 0 <= i < |attempts| :: Prompt(attempts[i]);
        NoRequestIsQueuedTwice(attempts, settings);
      }
    } else {
      var attempts := SlowPublishIsQueuedTwice(settings, latency);
      assert forall i | 0 <= i < |attempts| :: Within(attempts[i], latency);
    }
  }

  // ---- the rate bound ---------------------------------------------------------

  function Taken(o: Outcome): nat { if o.code > 0 then o.code else 0 }

  // Alerts of one tenant queued between two instants, both included.
  function QueuedIn(log: seq<Outcome>, tenant: TenantId, from: Time, to: Time): nat {
    if log == [] then 0
    else
      var last := log[|log| - 1];
      QueuedIn(log[..|log| - 1], tenant, from, to)
      + if last.tenant == tenant && from <= last.at <= to then Taken(last) else 0
  }

  lemma {:induction false} WiderHoldsMore(log: seq<Outcome>, tenant: TenantId, from: Time, to: Time, from': Time,
      to': Time)
    requires from' <= from && to <= to'
    ensures QueuedIn(log, tenant, from, to) <= QueuedIn(log, tenant, from', to')
  {
    if log != [] { WiderHoldsMore(log[..|log| - 1], tenant, from, to, from', to'); }
  }

  lemma {:induction false} SplitInterval(log: seq<Outcome>, tenant: TenantId, from: Time, mid: Time, to: Time)
    requires from <= mid <= to + 1
    ensures QueuedIn(log, tenant, from, to) == QueuedIn(log, tenant, from, mid - 1) + QueuedIn(log, tenant, mid, to)
  {
    if log != [] { SplitInterval(log[..|log| - 1], tenant, from, mid, to); }
  }

  lemma {:induction false} EmptyInterval(log: seq<Outcome>, tenant: TenantId, from: Time, to: Time)
    requires to < from
    ensures QueuedIn(log, tenant, from, to) == 0
  {
    if log != [] { EmptyInterval(log[..|log| - 1], tenant, from, to); }
  }

  lemma {:induction false} NothingAfter(log: seq<Outcome>, tenant: TenantId, from: Time, to: Time, now: Time)
    requires forall i | 0 <= i < |log| :: log[i].at <= now
    requires now < from
    ensures QueuedIn(log, tenant, from, to) == 0
  {
    if log != [] { NothingAfter(log[..|log| - 1], tenant, from, to, now); }
  }

  // What is known of one tenant when its current counter began at `start`: how much
  // has been queued since, and how much in the window before.
  ghost predicate WithinLifetimes(log: seq<Outcome>, tenant: TenantId, start: Time, used: int, now: Time,
      settings: Settings) {
    && start <= now
    && used >= 0
    && QueuedIn(log, tenant, start, now) <= Min(used, settings.limit)
    && QueuedIn(log, tenant, start - settings.Window(), start - 1) <= settings.limit
    && QueuedIn(log, tenant, start + settings.Window() + 1, now) == 0
  }

  // Alerts queued in the interval of one window length that begins at `from`.
  function InWindow(log: seq<Outcome>, tenant: TenantId, from: Time, settings: Settings): nat {
    QueuedIn(log, tenant, from, from + settings.Window())
  }

  ghost predicate WindowsBounded(log: seq<Outcome>, tenant: TenantId, settings: Settings) {
    forall from :: InWindow(log, tenant, from, settings) <= 2 * settings.limit
  }

  ghost predicate RateOk(g: Gate, tenant: TenantId, now: Time, settings: Settings) {
    && (forall i | 0 <= i < |g.log| :: g.log[i].at <= now)
    && WindowsBounded(g.log, tenant, settings)
    && if tenant !in g.redis.counters then forall from, to :: QueuedIn(g.log, tenant, from, to) == 0
       else
         var counter := g.redis.counters[tenant];
         && counter.expires.Some?
         && WithinLifetimes(g.log, tenant, counter.expires.value - settings.Window(), counter.used, now, settings)
  }

  // What one more outcome adds to an interval.
  lemma Appended(log: seq<Outcome>, o: Outcome, tenant: TenantId, from: Time, to: Time)
    ensures QueuedIn(log + [o], tenant, from, to)
         == QueuedIn(log, tenant, from, to) + if o.tenant == tenant && from <= o.at <= to then Taken(o) else 0
  {
    assert (log + [o])[..|log|] == log;
  }

  lemma UpToNow(log: seq<Outcome>, tenant: TenantId, from: Time, to: Time, now: Time)
    requires forall i | 0 <= i < |log| :: log[i].at <= now
    requires now <= to
    ensures QueuedIn(log, tenant, from, to) == QueuedIn(log, tenant, from, now)
  {
    if from <= now + 1 {
      SplitInterval(log, tenant, from, now + 1, to);
      NothingAfter(log, tenant, now + 1, to, now);
    } else {
      NothingAfter(log, tenant, from, to, now);
      NothingAfter(log, tenant, from, now, now);
    }
  }

  // An outcome that queues nothing, at a later instant.
  lemma IdleKeepsRate(g: Gate, h: Gate, tenant: TenantId, now: Time, o: Outcome, settings: Settings)
    requires RateOk(g, tenant, now, settings) && now <= o.at
    requires h.log == g.log + [o] && (Taken(o) == 0 || o.tenant != tenant)
    requires tenant in h.redis.counters <==> tenant in g.redis.counters
    requires tenant in g.redis.counters ==> h.redis.counters[tenant] == g.redis.counters[tenant]
    ensures RateOk(h, tenant, o.at, settings)
  {
    hide QueuedIn;
    forall from, to ensures QueuedIn(h.log, tenant, from, to) == QueuedIn(g.log, tenant, from, to) {
      Appended(g.log, o, tenant, from, to);
    }
    forall from ensures InWindow(h.log, tenant, from, settings) <= 2 * settings.limit {
      assert InWindow(g.log, tenant, from, settings) <= 2 * settings.limit;
    }
    if tenant in g.redis.counters {
      var start := g.redis.counters[tenant].expires.value - settings.Window();
      UpToNow(g.log, tenant, start, o.at, now);
      UpToNow(g.log, tenant, start + settings.Window() + 1, o.at, now);
    }
  }

  // The interval ending now holds at most one limit before the current lifetime.
  lemma RecentBeforeLifetime(log: seq<Outcome>, tenant: TenantId, start: Time, used: int, now: Time, at: Time,
      from: Time, settings: Settings)
    requires forall i | 0 <= i < |log| :: log[i].at <= now
    requires WithinLifetimes(log, tenant, start, used, now, settings) && now <= at && at - settings.Window() <= from
    ensures QueuedIn(log, tenant, from, at) <= settings.limit + Min(used, settings.limit)
    ensures start + settings.Window() < at ==> QueuedIn(log, tenant, from, at) <= settings.limit
  {
    var w := settings.Window();
    UpToNow(log, tenant, from, at, now);
    UpToNow(log, tenant, start, at, now);
    if from <= start {
      SplitInterval(log, tenant, from, start, at);
      WiderHoldsMore(log, tenant, from, start - 1, start - w, start - 1);
    } else {
      WiderHoldsMore(log, tenant, from, at, start, at);
    }
  }

  /** One counted publish keeps the bound, in each of the script's cases: a first
      counter, an expired one, a live one still at zero, and a live one in use. */
  lemma PublishKeepsRate(g: Gate, tenant: TenantId, now: Time, a: Attempt, settings: Settings)
    requires RateOk(g, tenant, now, settings) && now <= a.publishAt && a.tenant == tenant
    requires !NonceLive(g.redis, (a.tenant, a.signature), a.publishAt)
    requires TimestampIsFresh(a.signature.header, a.authAt, settings)
    ensures RateOk(Serve(g, a, settings), tenant, a.publishAt, settings)
  {
    hide QueuedIn;
    var h := Serve(g, a, settings);
    var at, w, count := a.publishAt, settings.Window(), |a.payloads|;
    var counter := h.redis.counters[tenant];
    var o := h.log[|g.log|];
    var renewed := !CounterLive(g.redis, tenant, at) || g.redis.counters[tenant].used == 0;
    var start := counter.expires.value - w;
    assert renewed ==> start == at;
    assert !renewed ==> start == g.redis.counters[tenant].expires.value - w;
    forall from | at - w <= from
      ensures QueuedIn(g.log, tenant, from, at) + Taken(o) <= 2 * settings.limit
      ensures renewed ==> QueuedIn(g.log, tenant, from, at) <= settings.limit
    {
      if tenant in g.redis.counters {
        var before := g.redis.counters[tenant];
        RecentBeforeLifetime(g.log, tenant, before.expires.value - w, before.used, now, at, from, settings);
      }
    }
    forall from ensures InWindow(h.log, tenant, from, settings) <= 2 * settings.limit {
      assert InWindow(g.log, tenant, from, settings) <= 2 * settings.limit;
      Appended(g.log, o, tenant, from, from + w);
      if from <= at <= from + w { UpToNow(g.log, tenant, from, from + w, now); UpToNow(g.log, tenant, from, at, now); }
    }
    LifetimeAfter(g, tenant, now, a, settings);
  }

  // A lifetime that begins now, over a log that held at most a limit in the window
  // before and, this instant, at most what the older lifetime allowed.
  lemma LifetimeBegins(log: seq<Outcome>, o: Outcome, tenant: TenantId, count: nat, settings: Settings)
    requires QueuedIn(log, tenant, o.at - settings.Window(), o.at) <= settings.limit
    requires QueuedIn(log, tenant, o.at, o.at) == 0
    requires o.tenant == tenant && Taken(o) <= Min(count, settings.limit)
    ensures WithinLifetimes(log + [o], tenant, o.at, count, o.at, settings)
  {
    var at, w := o.at, settings.Window();
    Appended(log, o, tenant, at, at);
    Appended(log, o, tenant, at - w, at - 1);
    WiderHoldsMore(log, tenant, at - w, at - 1, at - w, at);
    EmptyInterval(log + [o], tenant, at + w + 1, at);
  }

  lemma LifetimeGoesOn(log: seq<Outcome>, o: Outcome, tenant: TenantId, start: Time, used: int, count: nat,
      now: Time, settings: Settings)
    requires forall i | 0 <= i < |log| :: log[i].at <= now
    requires WithinLifetimes(log, tenant, start, used, now, settings)
    requires now <= o.at <= start + settings.Window() && o.tenant == tenant
    requires Taken(o) == if used + count > settings.limit then 0 else count
    ensures WithinLifetimes(log + [o], tenant, start, used + count, o.at, settings)
  {
    var at, end := o.at, start + settings.Window();
    var taken := QueuedIn(log, tenant, start, now);
    assert QueuedIn(log + [o], tenant, start, at) == taken + Taken(o) by {
      UpToNow(log, tenant, start, at, now);
      Appended(log, o, tenant, start, at);
    }
    assert taken + Taken(o) <= Min(used + count, settings.limit);
    assert QueuedIn(log + [o], tenant, start - settings.Window(), start - 1) <= settings.limit by {
      Appended(log, o, tenant, start - settings.Window(), start - 1);
    }
    assert QueuedIn(log + [o], tenant, end + 1, at) == 0 by {
      EmptyInterval(log + [o], tenant, end + 1, at);
    }
  }

  // Nothing of this instant is queued when a lifetime begins: the older one ended
  // before it, or had used nothing.
  lemma NothingThisInstant(log: seq<Outcome>, tenant: TenantId, start: Time, used: int, now: Time, at: Time,
      settings: Settings)
    requires forall i | 0 <= i < |log| :: log[i].at <= now
    requires WithinLifetimes(log, tenant, start, used, now, settings) && now <= at
    requires start + settings.Window() < at || used == 0
    ensures QueuedIn(log, tenant, at, at) == 0
    ensures QueuedIn(log, tenant, at - settings.Window(), at) <= settings.limit
  {
    var w := settings.Window();
    RecentBeforeLifetime(log, tenant, start, used, now, at, at - w, settings);
    if start + w < at {
      UpToNow(log, tenant, start + w + 1, at, now);
      WiderHoldsMore(log, tenant, at, at, start + w + 1, at);
    } else {
      UpToNow(log, tenant, start, at, now);
      WiderHoldsMore(log, tenant, at, at, start, at);
    }
  }

  lemma LifetimeAfter(g: Gate, tenant: TenantId, now: Time, a: Attempt, settings: Settings)
    requires RateOk(g, tenant, now, settings) && now <= a.publishAt && a.tenant == tenant
    requires !NonceLive(g.redis, (a.tenant, a.signature), a.publishAt)
    requires TimestampIsFresh(a.signature.header, a.authAt, settings)
    ensures var h := Serve(g, a, settings);
      && tenant in h.redis.counters && h.redis.counters[tenant].expires.Some?
      && WithinLifetimes(h.log, tenant, h.redis.counters[tenant].expires.value - settings.Window(),
                         h.redis.counters[tenant].used, a.publishAt, settings)
  {
    hide QueuedIn;
    var h := Serve(g, a, settings);
    var o, count := h.log[|g.log|], |a.payloads|;
    if tenant in g.redis.counters {
      var before := g.redis.counters[tenant];
      var start := before.expires.value - settings.Window();
      if CounterLive(g.redis, tenant, a.publishAt) && before.used > 0 {
        LifetimeGoesOn(g.log, o, tenant, start, before.used, count, now, settings);
      } else {
        NothingThisInstant(g.log, tenant, start, before.used, now, a.publishAt, settings);
        LifetimeBegins(g.log, o, tenant, count, settings);
      }
    } else {
      LifetimeBegins(g.log, o, tenant, count, settings);
    }
  }

  // Requests are published in the order of the store's clock.
  ghost predicate InOrder(attempts: seq<Attempt>) {
    forall i, j | 0 <= i < j < |attempts| :: attempts[i].publishAt <= attempts[j].publishAt
  }

  lemma ServeKeepsRate(g: Gate, a: Attempt, tenant: TenantId, now: Time, settings: Settings)
    requires RateOk(g, tenant, now, settings) && now <= a.publishAt
    ensures RateOk(Serve(g, a, settings), tenant, a.publishAt, settings)
  {
    hide QueuedIn, RateOk;
    var h := Serve(g, a, settings);
    if a.tenant == tenant && TimestampIsFresh(a.signature.header, a.authAt, settings)
       && !NonceLive(g.redis, (a.tenant, a.signature), a.publishAt) {
      PublishKeepsRate(g, tenant, now, a, settings);
    } else {
      IdleKeepsRate(g, h, tenant, now, h.log[|g.log|], settings);
    }
  }

  lemma {:induction false} RateHolds(attempts: seq<Attempt>, tenant: TenantId, now: Time, settings: Settings)
    requires InOrder(attempts) && forall i | 0 <= i < |attempts| :: attempts[i].publishAt <= now
    ensures RateOk(ServeAll(attempts, settings), tenant, now, settings)
  {
    if attempts == [] {
      assert ServeAll(attempts, settings).log == [];
      assert forall from, to :: QueuedIn([], tenant, from, to) == 0;
      assert forall from :: InWindow([], tenant, from, settings) == 0;
    } else {
      var front, last := attempts[..|attempts| - 1], attempts[|attempts| - 1];
      RateHolds(front, tenant, last.publishAt, settings);
      ServeKeepsRate(ServeAll(front, settings), last, tenant, last.publishAt, settings);
      LaterKeepsRate(ServeAll(attempts, settings), tenant, last.publishAt, now, settings);
    }
  }

  lemma LaterKeepsRate(g: Gate, tenant: TenantId, now: Time, later: Time, settings: Settings)
    requires RateOk(g, tenant, now, settings) && now <= later
    ensures RateOk(g, tenant, later, settings)
  {
    hide QueuedIn;
    if tenant in g.redis.counters {
      var start := g.redis.counters[tenant].expires.value - settings.Window();
      UpToNow(g.log, tenant, start, later, now);
      UpToNow(g.log, tenant, start + settings.Window() + 1, later, now);
    }
  }

  lemma RateOkBounds(g: Gate, tenant: TenantId, now: Time, from: Time, settings: Settings)
    requires RateOk(g, tenant, now, settings)
    ensures QueuedIn(g.log, tenant, from, from + settings.Window()) <= 2 * settings.limit
    ensures tenant in g.redis.counters ==>
      && g.redis.counters[tenant].expires.Some?
      && QueuedIn(g.log, tenant, g.redis.counters[tenant].expires.value - settings.Window(), now) <= settings.limit
  {
    hide QueuedIn;
    assert InWindow(g.log, tenant, from, settings) <= 2 * settings.limit;
  }

  /** In any run, every counter of a tenant carries an expiry, at most `limit` alerts are
      queued in the lifetime of the present counter, and at most twice the limit in any
      interval one window long. */
  lemma RateBound(attempts: seq<Attempt>, tenant: TenantId, now: Time, from: Time, settings: Settings)
    requires InOrder(attempts) && forall i | 0 <= i < |attempts| :: attempts[i].publishAt <= now
    ensures var g := ServeAll(attempts, settings);
      && QueuedIn(g.log, tenant, from, from + settings.windowSeconds * 1_000_000) <= 2 * settings.limit
      && (tenant in g.redis.counters ==>
            && g.redis.counters[tenant].expires.Some?
            && QueuedIn(g.log, tenant, g.redis.counters[tenant].expires.value - settings.windowSeconds * 1_000_000, now)
                 <= settings.limit)
  {
    hide ServeAll, RateOk, QueuedIn;
    RateHolds(attempts, tenant, now, settings);
    RateOkBounds(ServeAll(attempts, settings), tenant, now, from, settings);
  }

  // ---- and no quiet tenant is refused -----------------------------------------

  // Alerts a tenant has presented from some instant on, queued or not.
  function Presented(attempts: seq<Attempt>, tenant: TenantId, from: Time): nat {
    if attempts == [] then 0
    else
      var last := attempts[|attempts| - 1];
      Presented(attempts[..|attempts| - 1], tenant, from)
      + if last.tenant == tenant && from <= last.publishAt then |last.payloads| else 0
  }

  lemma {:induction false} LaterPresentsLess(attempts: seq<Attempt>, tenant: TenantId, from: Time, later: Time)
    requires from <= later
    ensures Presented(attempts, tenant, later) <= Presented(attempts, tenant, from)
  {
    if attempts != [] { LaterPresentsLess(attempts[..|attempts| - 1], tenant, from, later); }
  }

  // A counter stands for no more than what was presented since its lifetime began.
  ghost predicate CounterIsPresented(r: Redis, attempts: seq<Attempt>, tenant: TenantId, settings: Settings) {
    tenant in r.counters ==>
      && r.counters[tenant].expires.Some?
      && 0 <= r.counters[tenant].used
      && r.counters[tenant].used <= Presented(attempts, tenant, r.counters[tenant].expires.value - settings.Window())
      && (attempts != [] ==> r.counters[tenant].expires.value - settings.Window() <= attempts[|attempts| - 1].publishAt)
      && attempts != []
  }

  lemma {:induction false} CountersArePresented(attempts: seq<Attempt>, tenant: TenantId, settings: Settings)
    requires InOrder(attempts)
    ensures CounterIsPresented(ServeAll(attempts, settings).redis, attempts, tenant, settings)
    ensures forall s: Signature | (tenant, s) in ServeAll(attempts, settings).redis.nonces ::
      exists i | 0 <= i < |attempts| :: attempts[i].tenant == tenant && attempts[i].signature == s
  {
    if attempts != [] {
      var front, last := attempts[..|attempts| - 1], attempts[|attempts| - 1];
      CountersArePresented(front, tenant, settings);
      NonceIsPresented(ServeAll(front, settings), front, last, tenant, settings);
    }
  }

  lemma NonceIsPresented(g: Gate, front: seq<Attempt>, last: Attempt, tenant: TenantId, settings: Settings)
    requires forall s: Signature | (tenant, s) in g.redis.nonces ::
      exists i | 0 <= i < |front| :: front[i].tenant == tenant && front[i].signature == s
    ensures forall s: Signature | (tenant, s) in Serve(g, last, settings).redis.nonces ::
      exists i | 0 <= i < |front + [last]| :: (front + [last])[i].tenant == tenant && (front + [last])[i].signature == s
  {
    var attempts := front + [last];
    forall s: Signature | (tenant, s) in Serve(g, last, settings).redis.nonces
      ensures exists i | 0 <= i < |attempts| :: attempts[i].tenant == tenant && attempts[i].signature == s
    {
      if (tenant, s) in g.redis.nonces {
        var i :| 0 <= i < |front| && front[i].tenant == tenant && front[i].signature == s;
        assert attempts[i] == front[i];
      } else {
        assert attempts[|front|] == last;
      }
    }
  }

  /** After any run, a fresh request never presented before is queued whole whenever what
      its tenant presented in the last window, with it, stays within the limit. */
  lemma QuietTenantIsServed(attempts: seq<Attempt>, a: Attempt, settings: Settings)
    requires InOrder(attempts + [a])
    requires TimestampIsFresh(a.signature.header, a.authAt, settings)
    requires forall i | 0 <= i < |attempts| :: !SameRequest(attempts[i], a)
    requires
      Presented(attempts, a.tenant, a.publishAt - settings.windowSeconds * 1_000_000) + |a.payloads| <= settings.limit
    ensures var g := Serve(ServeAll(attempts, settings), a, settings);
      && g.log[|g.log| - 1].code == |a.payloads|
      && g.redis.stream == ServeAll(attempts, settings).redis.stream + Tagged(a.tenant, a.payloads)
  {
    var r := ServeAll(attempts, settings).redis;
    forall i, j | 0 <= i < j < |attempts| ensures attempts[i].publishAt <= attempts[j].publishAt {
      assert attempts[i] == (attempts + [a])[i] && attempts[j] == (attempts + [a])[j];
    }
    CountersArePresented(attempts, a.tenant, settings);
    assert (a.tenant, a.signature) !in r.nonces;
    if CounterLive(r, a.tenant, a.publishAt) {
      var start := r.counters[a.tenant].expires.value - settings.Window();
      LaterPresentsLess(attempts, a.tenant, a.publishAt - settings.Window(), start);
    }
  }

  // ---- tenants do not affect each other ---------------------------------------

  function OnlyFor(attempts: seq<Attempt>, tenant: TenantId): seq<Attempt> {
    if attempts == [] then []
    else
      var last := attempts[|attempts| - 1];
      OnlyFor(attempts[..|attempts| - 1], tenant) + if last.tenant == tenant then [last] else []
  }

  function LogFor(log: seq<Outcome>, tenant: TenantId): seq<Outcome> {
    if log == [] then []
    else
      var last := log[|log| - 1];
      LogFor(log[..|log| - 1], tenant) + if last.tenant == tenant then [last] else []
  }

  // Two stores agree on everything held for one tenant.
  ghost predicate AgreeFor(r: Redis, q: Redis, tenant: TenantId) {
    && (forall s: Signature :: (tenant, s) in r.nonces <==> (tenant, s) in q.nonces)
    && (forall s: Signature | (tenant, s) in r.nonces :: r.nonces[(tenant, s)] == q.nonces[(tenant, s)])
    && (tenant in r.counters <==> tenant in q.counters)
    && (tenant in r.counters ==> r.counters[tenant] == q.counters[tenant])
  }

  lemma ServeAgrees(g: Gate, h: Gate, a: Attempt, settings: Settings)
    requires AgreeFor(g.redis, h.redis, a.tenant)
    ensures AgreeFor(Serve(g, a, settings).redis, Serve(h, a, settings).redis, a.tenant)
    ensures |Serve(h, a, settings).log| == |h.log| + 1 && |Serve(g, a, settings).log| == |g.log| + 1
    ensures Serve(h, a, settings).log == h.log + [Serve(g, a, settings).log[|g.log|]]
  {
  }

  lemma ServeLeavesOthers(g: Gate, h: Redis, a: Attempt, tenant: TenantId, settings: Settings)
    requires AgreeFor(g.redis, h, tenant) && a.tenant != tenant
    ensures AgreeFor(Serve(g, a, settings).redis, h, tenant)
  {
  }

  lemma ServeLogs(g: Gate, a: Attempt, tenant: TenantId, settings: Settings)
    ensures var log := Serve(g, a, settings).log;
      && |log| == |g.log| + 1
      && LogFor(log, tenant) == LogFor(g.log, tenant) + if a.tenant == tenant then [log[|g.log|]] else []
  {
    assert Serve(g, a, settings).log[..|g.log|] == g.log;
  }

  /** A tenant's verdicts in any run are those it would get with the gate to itself:
      no other tenant's requests, storms included, change any of them. */
  lemma {:induction false} VerdictsAreTheTenantsOwn(attempts: seq<Attempt>, tenant: TenantId, settings: Settings)
    ensures LogFor(ServeAll(attempts, settings).log, tenant) == ServeAll(OnlyFor(attempts, tenant), settings).log
    ensures AgreeFor(ServeAll(attempts, settings).redis, ServeAll(OnlyFor(attempts, tenant), settings).redis, tenant)
  {
    if attempts != [] {
      var front, last := attempts[..|attempts| - 1], attempts[|attempts| - 1];
      VerdictsAreTheTenantsOwn(front, tenant, settings);
      var g, h := ServeAll(front, settings), ServeAll(OnlyFor(front, tenant), settings);
      ServeLogs(g, last, tenant, settings);
      if last.tenant == tenant {
        ServeAgrees(g, h, last, settings);
        var own := OnlyFor(attempts, tenant);
        assert own == OnlyFor(front, tenant) + [last];
        assert own[..|own| - 1] == OnlyFor(front, tenant);
      } else {
        ServeLeavesOthers(g, h.redis, last, tenant, settings);
        assert OnlyFor(attempts, tenant) == OnlyFor(front, tenant);
      }
    }
  }
}
