/** The agent cache: paging a manager's agents, then upserting and pruning one tenant. */
module AgentSync {
  import opened Wrappers
  import opened Model

  const AGENT_PAGE := 500
  const MAX_AGENTS := 10000

  // ---- what a manager answers -------------------------------------------------

  // A field that is stored as it comes; one that is no text cannot be.
  datatype Field = Missing | Text(text: string) | NoText

  datatype Details = Details(osPlatform: Field, osName: Field, version: Field, status: Field, groups: seq<string>)

  // One reported agent; a missing id or name is the empty text, and an address or a
  // check-in time that is no text is None.
  datatype Reported = Reported(id: string, name: string, ip: Option<string>, keepAlive: Option<string>,
                               details: Details)

  // What stands in a page: an agent, or something that is no object at all.
  datatype Item = Object(agent: Reported) | NoObject

  datatype Response = Failed(error: string) | Page(items: seq<Item>, total: Option<int>)

  // Any manager at all: its answer may depend on how often it was asked and on where
  // the page is to start.
  type Manager = (nat, nat) -> Response

  // ---- the paging loop --------------------------------------------------------

  // What is read from call number `call` on, with `collected` read so far.
  function Paged(manager: Manager, call: nat, collected: seq<Item>): Result<seq<Item>, string>
    requires |collected| < MAX_AGENTS
    decreases MAX_AGENTS - |collected|
  {
    match manager(call, |collected|)
    case Failed(error) => Err(error)
    case Page(items, total) =>
      var all := collected + items;
      var stop := if total.Some? then total.value else |all|;
      if items == [] || |all| >= stop || |all| >= MAX_AGENTS then Ok(all[..Min(|all|, MAX_AGENTS)])
      else Paged(manager, call + 1, all)
  }

  /** Reads every page; whatever the manager answers, at most `MAX_AGENTS` requests. */
  method Agents(manager: Manager) returns (r: Result<seq<Item>, string>, calls: nat)
    ensures r == Paged(manager, 0, [])
    ensures 1 <= calls <= 10000
    ensures r.Ok? ==> |r.value| <= 10000
  {
    var collected, offset := [], 0;
    calls := 0;
    while true
      invariant offset == |collected| < MAX_AGENTS && calls <= |collected|
      invariant Paged(manager, calls, collected) == Paged(manager, 0, [])
      decreases MAX_AGENTS - |collected|
    {
      var response := manager(calls, offset);
      calls := calls + 1;
      match response
      case Failed(error) => return Err(error), calls;
      case Page(items, total) =>
        collected := collected + items;
        var stop := if total.Some? then total.value else |collected|;
        offset := offset + |items|;
        if items == [] || offset >= stop || |collected| >= MAX_AGENTS {
          return Ok(collected[..Min(|collected|, MAX_AGENTS)]), calls;
        }
    }
  }

  // A manager with a fixed fleet: each page is the next few agents, at least one while
  // any are left, and the total it reports is always `total`.
  ghost predicate Serves(manager: Manager, fleet: seq<Item>, total: Option<int>) {
    forall call: nat, offset: nat :: offset <= |fleet| ==> ServesPage(manager(call, offset), fleet[offset..], total)
  }

  ghost predicate ServesPage(response: Response, rest: seq<Item>, total: Option<int>) {
    && response.Page? && response.total == total
    && response.items <= rest && |response.items| <= AGENT_PAGE
    && (rest != [] ==> response.items != [])
  }

  // The loop has read the fleet's first agents: no fewer than it was told of, and less
  // than one page more.
  ghost predicate ReadEnough(r: Result<seq<Item>, string>, fleet: seq<Item>, total: int) {
    && r.Ok?
    && Min(Min(total, |fleet|), 10000) <= |r.value| <= Min(|fleet|, 10000)
    && |r.value| < Max(total, 1) + AGENT_PAGE
    && r.value == fleet[..|r.value|]
  }

  lemma {:induction false} PagesAddUp(manager: Manager, fleet: seq<Item>, total: int, call: nat,
      collected: seq<Item>)
    requires Serves(manager, fleet, Some(total)) && |collected| < MAX_AGENTS && collected <= fleet
    requires collected == [] || |collected| < total
    ensures ReadEnough(Paged(manager, call, collected), fleet, total)
    decreases MAX_AGENTS - |collected|
  {
    var response := manager(call, |collected|);
    assert ServesPage(response, fleet[|collected|..], Some(total));
    var all := collected + response.items;
    assert all <= fleet;
    if response.items != [] && |all| < total && |all| < MAX_AGENTS {
      PagesAddUp(manager, fleet, total, call + 1, all);
    } else {
      assert all[..Min(|all|, MAX_AGENTS)] == fleet[..Min(|all|, MAX_AGENTS)];
    }
  }

  /** Whatever its page sizes, a manager that reports its true total, or more, is read
      to the end or to the ceiling; one that understates it is read at least that far,
      and less than a page further. */
  lemma WholeFleetIsRead(manager: Manager, fleet: seq<Item>, total: int)
    requires Serves(manager, fleet, Some(total))
    ensures ReadEnough(Paged(manager, 0, []), fleet, total)
    ensures total >= Min(|fleet|, 10000) ==> Paged(manager, 0, []) == Ok(fleet[..Min(|fleet|, 10000)])
  {
    PagesAddUp(manager, fleet, total, 0, []);
  }

  // A manager that fills every page it can.
  ghost predicate FillsPages(manager: Manager, fleet: seq<Item>, total: int) {
    forall call: nat, offset: nat | offset <= |fleet| ::
      manager(call, offset) == Page(fleet[offset..Min(offset + AGENT_PAGE, |fleet|)], Some(total))
  }

  // Where the loop stops: at the end of the page that reaches the total, the fleet's end
  // or the ceiling.
  function PagesTo(total: int): nat {
    if total <= AGENT_PAGE then AGENT_PAGE else AGENT_PAGE + PagesTo(total - AGENT_PAGE)
  }

  function ReadUpTo(total: int, fleet: seq<Item>): nat { Min(Min(PagesTo(total), |fleet|), MAX_AGENTS) }

  lemma {:induction false} FullPages(manager: Manager, fleet: seq<Item>, total: int, call: nat, k: nat)
    requires FillsPages(manager, fleet, total)
    requires k <= |fleet| && k < MAX_AGENTS && (k == 0 || k < total)
    ensures Paged(manager, call, fleet[..k]) == Ok(fleet[..Min(Min(k + PagesTo(total - k), |fleet|), MAX_AGENTS)])
    decreases MAX_AGENTS - k
  {
    var next := Min(k + AGENT_PAGE, |fleet|);
    assert manager(call, k) == Page(fleet[k..next], Some(total));
    assert fleet[..k] + fleet[k..next] == fleet[..next];
    if next > k && next < total && next < MAX_AGENTS {
      FullPages(manager, fleet, total, call + 1, next);
      if next == |fleet| {
        assert Min(next + PagesTo(total - next), |fleet|) == |fleet| == Min(k + PagesTo(total - k), |fleet|) by {
          ReachesOn(total, k, |fleet|);
        }
      }
    } else {
      assert fleet[..next][..Min(next, MAX_AGENTS)] == fleet[..Min(next, MAX_AGENTS)];
      if next == |fleet| && next < total { ReachesOn(total, k, |fleet|); }
    }
  }

  lemma {:induction false} PagesReach(total: int)
    ensures PagesTo(total) >= total && PagesTo(total) >= AGENT_PAGE
  {
    if total > AGENT_PAGE { PagesReach(total - AGENT_PAGE); }
  }

  lemma ReachesOn(total: int, k: nat, n: nat)
    requires n <= total
    ensures k + PagesTo(total - k) >= n
  {
    PagesReach(total - k);
  }

  /** A manager that fills its pages, whatever total it reports, is read exactly to the end
      of the page that reaches that total: the whole fleet if and only if that page does. */
  lemma FilledPagesAreRead(manager: Manager, fleet: seq<Item>, total: int)
    requires FillsPages(manager, fleet, total)
    ensures Paged(manager, 0, []) == Ok(fleet[..ReadUpTo(total, fleet)])
    ensures Paged(manager, 0, []) == Ok(fleet[..Min(|fleet|, 10000)]) <==>
      PagesTo(total) >= Min(|fleet|, 10000)
  {
    assert fleet[..0] == [];
    FullPages(manager, fleet, total, 0, 0);
    assert |fleet[..ReadUpTo(total, fleet)]| == ReadUpTo(total, fleet);
  }

  /** A manager that reports no total is read for one page only, so the whole fleet is
      read exactly when the first page holds it. */
  lemma NoTotalReadsOnePage(manager: Manager, fleet: seq<Item>)
    requires Serves(manager, fleet, None)
    ensures Paged(manager, 0, []) == Ok(manager(0, 0).items)
    ensures Paged(manager, 0, []) == Ok(fleet[..Min(|fleet|, 10000)]) <==> |manager(0, 0).items| == |fleet|
  {
    var response := manager(0, 0);
    assert ServesPage(response, fleet[0..], None);
    assert [] + response.items == response.items;
    assert response.items[..|response.items|] == response.items;
    assert response.items == fleet[..|response.items|];
    assert |fleet| <= 10000 ==> fleet[..|fleet|] == fleet;
  }

  // ---- one tenant's rows ------------------------------------------------------

  datatype AgentRow = AgentRow(name: string, ip: Option<string>, lastKeepAlive: Option<Time>, details: Details,
                               syncedAt: Time)

  type Cache = map<(TenantId, string), AgentRow>

  // How a time is read, and which texts the address column takes.
  datatype Readers = Readers(time: string -> Option<Time>, inet: string -> bool)

  predicate IsSpace(c: char) { c == ' ' || c == '\t' || c == '\n' || c == '\r' }

  function Strip(s: string): string {
    if s == [] then []
    else if IsSpace(s[0]) then Strip(s[1..])
    else if IsSpace(s[|s| - 1]) then Strip(s[..|s| - 1])
    else s
  }

  // An agent that never checked in is reported with the year 9999.
  function KeepAlive(value: Option<string>, readers: Readers): Option<Time> {
    if value.None? || value.value == "" || "9999" <= value.value then None else readers.time(value.value)
  }

  function Address(value: Option<string>): Option<string> {
    if value.None? || Strip(value.value) == "" then None else Some(Strip(value.value))
  }

  function RowOf(item: Reported, readers: Readers, now: Time): AgentRow {
    AgentRow(if item.name == "" then item.id else item.name, Address(item.ip), KeepAlive(item.keepAlive, readers),
             item.details, now)
  }

  ghost predicate Blank(s: string) { forall i | 0 <= i < |s| :: IsSpace(s[i]) }

  // What is left of a text without the blanks at its ends.
  ghost predicate IsStripped(s: string, text: string) {
    && (text == "" || (!IsSpace(text[0]) && !IsSpace(text[|text| - 1])))
    && exists k: nat :: k + |text| <= |s| && StrippedAt(s, text, k)
  }

  ghost predicate StrippedAt(s: string, text: string, k: nat)
    requires k + |text| <= |s|
  {
    Blank(s[..k]) && s[k..k + |text|] == text && Blank(s[k + |text|..])
  }

  lemma StripsFront(s: string, text: string, k: nat)
    requires s != [] && IsSpace(s[0]) && k + |text| <= |s| - 1 && StrippedAt(s[1..], text, k)
    ensures StrippedAt(s, text, k + 1)
  {
    hide IsSpace;
    assert s[..k + 1] == [s[0]] + s[1..][..k];
    assert s[k + 1..k + 1 + |text|] == s[1..][k..k + |text|];
    assert s[k + 1 + |text|..] == s[1..][k + |text|..];
  }

  lemma StripsBack(s: string, text: string, k: nat)
    requires s != [] && IsSpace(s[|s| - 1]) && k + |text| <= |s| - 1 && StrippedAt(s[..|s| - 1], text, k)
    ensures StrippedAt(s, text, k)
  {
    hide IsSpace;
    var front := s[..|s| - 1];
    assert s[..k] == front[..k] && s[k..k + |text|] == front[k..k + |text|];
    assert s[k + |text|..] == front[k + |text|..] + [s[|s| - 1]];
  }

  lemma {:induction false} StripIs(s: string)
    ensures IsStripped(s, Strip(s))
    decreases |s|
  {
    hide IsSpace, StrippedAt;
    var text := Strip(s);
    if s == [] {
      NothingStripped(s);
    } else if IsSpace(s[0]) {
      StripIs(s[1..]);
      var k: nat :| k + |text| <= |s[1..]| && StrippedAt(s[1..], text, k);
      StripsFront(s, text, k);
    } else if IsSpace(s[|s| - 1]) {
      StripIs(s[..|s| - 1]);
      var k: nat :| k + |text| <= |s[..|s| - 1]| && StrippedAt(s[..|s| - 1], text, k);
      StripsBack(s, text, k);
    } else {
      NothingStripped(s);
    }
  }

  lemma NothingStripped(s: string)
    ensures StrippedAt(s, s, 0)
  {
    assert s[0..0 + |s|] == s;
  }

  /** What is stored of an agent: its name, or its id if it has none; its address without
      blanks around it, unless it is no text or blank; its last check-in as read, unless
      there is none or its year is 9999; the rest as reported, and the time of the sync. */
  lemma RowHolds(item: Reported, readers: Readers, now: Time)
    ensures var row := RowOf(item, readers, now);
      && row.details == item.details && row.syncedAt == now
      && (item.name != "" ==> row.name == item.name) && (item.name == "" ==> row.name == item.id)
      && (item.ip.None? ==> row.ip.None?)
      && (item.ip.Some? ==>
            exists text :: IsStripped(item.ip.value, text) && row.ip == if text == "" then None else Some(text))
      && (item.keepAlive.None? || item.keepAlive.value == "" ==> row.lastKeepAlive.None?)
      && (item.keepAlive.Some? && |item.keepAlive.value| >= 4 && item.keepAlive.value[..4] == "9999" ==>
            row.lastKeepAlive.None?)
      && (item.keepAlive.Some? && item.keepAlive.value != ""
          && (|item.keepAlive.value| < 4 || item.keepAlive.value[..4] != "9999") ==>
            row.lastKeepAlive == readers.time(item.keepAlive.value))
  {
    if item.ip.Some? { StripIs(item.ip.value); }
  }

  // The usable agents: those with an id.
  function Usable(items: seq<Item>): seq<Reported> {
    if items == [] then []
    else
      var before, item := Usable(items[..|items| - 1]), items[|items| - 1];
      if item.NoObject? || item.agent.id == "" then before else before + [item.agent]
  }

  // One `insert ... on conflict do update` of every row.
  function Upserted(cache: Cache, tenant: TenantId, items: seq<Reported>, readers: Readers, now: Time): Cache {
    if items == [] then cache
    else
      var item := items[|items| - 1];
      Upserted(cache, tenant, items[..|items| - 1], readers, now)[(tenant, item.id) := RowOf(item, readers, now)]
  }

  // The statement is refused when it would touch one row twice, when an address is not
  // one the column takes, or when a field that must be a text is none.
  ghost predicate Insertable(items: seq<Reported>, readers: Readers) {
    && (forall i, j | 0 <= i < j < |items| :: items[i].id != items[j].id)
    && (forall i | 0 <= i < |items| :: Fits(items[i], readers))
  }

  predicate Fits(item: Reported, readers: Readers) {
    && (Address(item.ip).None? || readers.inet(Address(item.ip).value))
    && !item.details.osPlatform.NoText? && !item.details.osName.NoText?
    && !item.details.version.NoText? && !item.details.status.NoText?
  }

  ghost predicate AllObjects(items: seq<Item>) {
    forall i | 0 <= i < |items| :: items[i].Object?
  }

  // Every item can be looked into, and the rows made of them inserted.
  ghost predicate Storable(items: seq<Item>, readers: Readers) {
    AllObjects(items) && Insertable(Usable(items), readers)
  }

  function Ids(items: seq<Reported>): set<string> { set item | item in items :: item.id }

  function Pruned(cache: Cache, tenant: TenantId, seen: set<string>): Cache {
    map key | key in cache && (key.0 != tenant || key.1 in seen) :: cache[key]
  }

  // The tenant's cached agents that were not read.
  function Gone(cache: Cache, tenant: TenantId, seen: set<string>): set<(TenantId, string)> {
    set key | key in cache && key.0 == tenant && key.1 !in seen
  }

  // The cache after a successful sync of `tenant` that read `items`.
  function Mirrored(cache: Cache, tenant: TenantId, items: seq<Item>, readers: Readers, now: Time): Cache {
    Pruned(Upserted(cache, tenant, Usable(items), readers, now), tenant, Ids(Usable(items)))
  }

  datatype Connection = Connection(lastSyncAt: Option<Time>, lastSyncError: Option<string>)

  // What a sweep keeps books of.
  datatype Books = Books(agents: Cache, connections: map<TenantId, Connection>)

  // One tenant's turn: whom to ask, and when.
  datatype Visit = Visit(tenant: TenantId, manager: Manager, now: Time)
  {
    function Read(): Result<seq<Item>, string> { Paged(manager, 0, []) }

    // The read cannot be stored.
    ghost predicate Raises(readers: Readers) { Read().Ok? && !Storable(Read().value, readers) }
  }

  // The books after a visit that does not raise: a failed read changes no agent row and
  // notes the error, any other leaves the mirror of what was read.
  function Visited(books: Books, v: Visit, readers: Readers): (after: Books)
    requires v.tenant in books.connections
    ensures after.connections.Keys == books.connections.Keys
  {
    match v.Read()
    case Err(error) =>
      books.(connections := books.connections[v.tenant := books.connections[v.tenant].(lastSyncError := Some(error))])
    case Ok(items) =>
      Books(Mirrored(books.agents, v.tenant, items, readers, v.now),
            books.connections[v.tenant := Connection(Some(v.now), None)])
  }

  datatype Outcome = Synced(synced: nat, removed: nat) | Unread(error: string) | Raised

  class AgentTable {
    var agents: Cache
    var connections: map<TenantId, Connection>

    function State(): Books
      reads this
    {
      Books(agents, connections)
    }

    constructor (agents: Cache, connections: map<TenantId, Connection>)
      ensures this.agents == agents && this.connections == connections
    {
      this.agents, this.connections := agents, connections;
    }

    /** The sweep: one visit after another, ended by the first that raises. */
    method SyncAll(visits: seq<Visit>, readers: Readers) returns (outcomes: seq<Outcome>, raised: bool)
      requires Connected(connections, visits)
      modifies this
      ensures State() == Sweep(old(State()), visits, readers)
      ensures raised <==> exists i :: 0 <= i < |visits| && visits[i].Raises(readers)
      ensures !raised ==> |outcomes| == |visits|
    {
      hide Visited, Visit.Raises;
      outcomes, raised := [], false;
      ghost var before := State();
      for i := 0 to |visits|
        invariant connections.Keys == before.connections.Keys
        invariant State() == Swept(before, visits, readers, i)
        invariant NoneRaises(visits, readers, i)
        invariant |outcomes| == i
      {
        var v := visits[i];
        var outcome := SyncTenant(v.tenant, v.manager, readers, v.now);
        if outcome.Raised? {
          StopsAtFirst(before, visits, readers, i, |visits|);
          return outcomes, true;
        }
        outcomes := outcomes + [outcome];
      }
    }

    /** One tenant's sync. A read that cannot be stored raises with nothing committed. */
    method SyncTenant(tenant: TenantId, manager: Manager, readers: Readers, now: Time) returns (outcome: Outcome)
      requires tenant in connections
      modifies this
      ensures var v := Visit(tenant, manager, now);
        && State() == (if v.Raises(readers) then old(State()) else Visited(old(State()), v, readers))
        && (outcome.Raised? <==> v.Raises(readers))
        && (outcome.Unread? <==> v.Read().Err?)
        && (outcome.Unread? ==> outcome.error == v.Read().error)
        && (outcome.Synced? ==>
              && outcome.synced == |Usable(v.Read().value)|
              && outcome.removed == |Gone(old(agents), tenant, Ids(Usable(v.Read().value)))|)
    {
      hide Paged, Pruned, Upserted, Ids, Gone, Insertable;
      var read, calls := Agents(manager);
      if read.Err? {
        connections := connections[tenant := connections[tenant].(lastSyncError := Some(read.error))];
        return Unread(read.error);
      }
      var rows, items := [], read.value;
      for i := 0 to |items|
        invariant rows == Usable(items[..i]) && AllObjects(items[..i])
        invariant agents == old(agents) && connections == old(connections)
      {
        assert items[..i + 1][..i] == items[..i];
        if items[i].NoObject? { return Raised; }
        if items[i].agent.id != "" {
          rows := rows + [items[i].agent];
        }
      }
      assert items[..|items|] == items;
      var insertable := CheckInsertable(rows, readers);
      if !insertable {
        return Raised;
      }
      var upserted := Upserted(agents, tenant, rows, readers, now);
      agents := Pruned(upserted, tenant, Ids(rows));
      connections := connections[tenant := Connection(Some(now), None)];
      PruneRemoves(upserted, tenant, Ids(rows));
      UpsertKeepsGone(old(agents), tenant, rows, readers, now);
      outcome := Synced(|rows|, |upserted| - |agents|);
    }
  }

  method CheckInsertable(rows: seq<Reported>, readers: Readers) returns (ok: bool)
    ensures ok <==> Insertable(rows, readers)
  {
    var seen: set<string> := {};
    for i := 0 to |rows|
      invariant seen == Ids(rows[..i])
      invariant Insertable(rows[..i], readers)
    {
      assert rows[..i + 1] == rows[..i] + [rows[i]];
      if rows[i].id in seen {
        var j :| 0 <= j < i && rows[j].id == rows[i].id;
        return false;
      }
      if !Fits(rows[i], readers) {
        return false;
      }
      seen := seen + {rows[i].id};
    }
    assert rows[..|rows|] == rows;
    ok := true;
  }

  lemma PruneRemoves(cache: Cache, tenant: TenantId, seen: set<string>)
    ensures |cache| - |Pruned(cache, tenant, seen)| == |Gone(cache, tenant, seen)|
  {
    var after, gone := Pruned(cache, tenant, seen), Gone(cache, tenant, seen);
    assert cache.Keys == after.Keys + gone && after.Keys !! gone;
    assert |cache.Keys| == |after.Keys| + |gone|;
  }

  lemma UpsertKeepsGone(cache: Cache, tenant: TenantId, items: seq<Reported>, readers: Readers, now: Time)
    ensures Gone(Upserted(cache, tenant, items, readers, now), tenant, Ids(items)) == Gone(cache, tenant, Ids(items))
  {
    var after := Upserted(cache, tenant, items, readers, now);
    forall key ensures key in Gone(after, tenant, Ids(items)) <==> key in Gone(cache, tenant, Ids(items)) {
      UpsertedKeys(cache, tenant, items, readers, now, key);
    }
  }

  // ---- what a sync leaves -----------------------------------------------------

  lemma {:induction false} UpsertedKeys(cache: Cache, tenant: TenantId, items: seq<Reported>, readers: Readers,
      now: Time, key: (TenantId, string))
    ensures var after := Upserted(cache, tenant, items, readers, now);
      && (key in after <==> key in cache || (key.0 == tenant && key.1 in Ids(items)))
      && (key in cache && !(key.0 == tenant && key.1 in Ids(items)) ==> after[key] == cache[key])
  {
    if items != [] {
      var front, item := items[..|items| - 1], items[|items| - 1];
      UpsertedKeys(cache, tenant, front, readers, now, key);
      assert items == front + [item];
      assert Ids(items) == Ids(front) + {item.id};
    }
  }

  lemma {:induction false} UpsertedRow(cache: Cache, tenant: TenantId, items: seq<Reported>, readers: Readers,
      now: Time, item: Reported)
    requires Insertable(items, readers) && item in items
    ensures var after := Upserted(cache, tenant, items, readers, now);
      (tenant, item.id) in after && after[(tenant, item.id)] == RowOf(item, readers, now)
  {
    var front, last := items[..|items| - 1], items[|items| - 1];
    if item != last {
      assert items == front + [last];
      assert forall i | 0 <= i < |front| :: front[i] == items[i];
      UpsertedRow(cache, tenant, front, readers, now, item);
    }
  }

  /** A successful sync leaves the tenant exactly the agents it read, each as read, and
      every other tenant's rows as they were. */
  lemma SyncMirrorsTheRead(cache: Cache, tenant: TenantId, items: seq<Item>, readers: Readers, now: Time,
      key: (TenantId, string))
    requires Insertable(Usable(items), readers)
    ensures var after := Mirrored(cache, tenant, items, readers, now);
      && (key.0 == tenant ==> (key in after <==> key.1 in Ids(Usable(items))))
      && (forall agent | Object(agent) in items && agent.id != "" && key == (tenant, agent.id) ::
            key in after && after[key] == RowOf(agent, readers, now))
      && (key.0 != tenant ==> (key in after <==> key in cache) && (key in cache ==> after[key] == cache[key]))
  {
    UpsertedKeys(cache, tenant, Usable(items), readers, now, key);
    var after := Mirrored(cache, tenant, items, readers, now);
    forall agent | Object(agent) in items && agent.id != "" && key == (tenant, agent.id)
      ensures key in after && after[key] == RowOf(agent, readers, now)
    {
      UsableIsRead(items, agent);
      UpsertedRow(cache, tenant, Usable(items), readers, now, agent);
    }
  }

  /** Exactly the agents with an id are used. */
  lemma {:induction false} UsableIsRead(items: seq<Item>, agent: Reported)
    ensures agent in Usable(items) <==> Object(agent) in items && agent.id != ""
  {
    if items != [] {
      UsableIsRead(items[..|items| - 1], agent);
      assert items == items[..|items| - 1] + [items[|items| - 1]];
    }
  }

  lemma UsableOne(agent: Reported)
    requires agent.id != ""
    ensures Usable([Object(agent)]) == [agent]
  {
    assert [Object(agent)][..0] == [];
  }

  lemma UsableTwice(agent: Reported)
    requires agent.id != ""
    ensures Usable([Object(agent), Object(agent)]) == [agent, agent]
  {
    UsableOne(agent);
    assert [Object(agent), Object(agent)][..1] == [Object(agent)];
  }

  // The same id twice cannot be stored.
  lemma TwiceRaises(agent: Reported, readers: Readers)
    requires agent.id != ""
    ensures !Storable([Object(agent), Object(agent)], readers)
  {
    UsableTwice(agent);
    assert [agent, agent][0].id == [agent, agent][1].id;
  }

  lemma OneAlone(agent: Reported, readers: Readers)
    requires agent.id != ""
    ensures Storable([Object(agent)], readers) <==> Fits(agent, readers)
  {
    UsableOne(agent);
    assert [agent][0] == agent;
  }

  /** The sync is said never to raise; it can, on an item that is no object, on one agent
      id reported twice, on an address such as "any" that the column does not take, and on
      a version that is no text. */
  lemma SyncCanRaise(agent: Reported, readers: Readers)
    requires agent.id != ""
    ensures !Storable([NoObject], readers)
    ensures !Storable([Object(agent), Object(agent)], readers)
    ensures !readers.inet("any") ==> !Storable([Object(agent.(ip := Some("any")))], readers)
    ensures !Storable([Object(agent.(details := agent.details.(version := NoText)))], readers)
  {
    assert [NoObject][0].NoObject?;
    TwiceRaises(agent, readers);
    OneAlone(agent.(ip := Some("any")), readers);
    assert Strip("any") == "any";
    OneAlone(agent.(details := agent.details.(version := NoText)), readers);
  }

  // ---- the sweep over tenants -------------------------------------------------

  // None of the first `n` visits raises.
  ghost predicate NoneRaises(visits: seq<Visit>, readers: Readers, n: nat)
    requires n <= |visits|
  {
    forall i | 0 <= i < n :: !visits[i].Raises(readers)
  }

  // Every visited tenant has a connection.
  ghost predicate Connected(connections: map<TenantId, Connection>, visits: seq<Visit>) {
    forall i | 0 <= i < |visits| :: visits[i].tenant in connections
  }

  // The books after `n` visits: every visit before the first that raises; that one and
  // all after it leave nothing.
  ghost function Swept(books: Books, visits: seq<Visit>, readers: Readers, n: nat): (after: Books)
    requires Connected(books.connections, visits) && n <= |visits|
    ensures after.connections.Keys == books.connections.Keys
    decreases n
  {
    if n == 0 then books
    else
      var before := Swept(books, visits, readers, n - 1);
      if NoneRaises(visits, readers, n) then Visited(before, visits[n - 1], readers) else before
  }

  ghost function Sweep(books: Books, visits: seq<Visit>, readers: Readers): (after: Books)
    requires Connected(books.connections, visits)
  {
    Swept(books, visits, readers, |visits|)
  }

  // Once a visit raises, nothing more happens.
  lemma {:induction false} StopsAtFirst(books: Books, visits: seq<Visit>, readers: Readers, i: nat, n: nat)
    requires Connected(books.connections, visits)
    requires i <= n <= |visits| && i < |visits| && visits[i].Raises(readers)
    ensures Swept(books, visits, readers, n) == Swept(books, visits, readers, i)
    decreases n
  {
    hide Visited, Visit.Raises;
    if i < n {
      StopsAtFirst(books, visits, readers, i, n - 1);
      assert !NoneRaises(visits, readers, n);
    }
  }

  // One tenant's cached agents by id.
  function RowsOf(cache: Cache, tenant: TenantId): map<(TenantId, string), AgentRow> {
    map key | key in cache && key.0 == tenant :: cache[key]
  }

  // A mirror owes nothing to what was cached before.
  lemma MirrorIsTheRead(cache: Cache, cache': Cache, tenant: TenantId, items: seq<Item>, readers: Readers,
      now: Time)
    requires Insertable(Usable(items), readers)
    ensures RowsOf(Mirrored(cache, tenant, items, readers, now), tenant)
         == RowsOf(Mirrored(cache', tenant, items, readers, now), tenant)
  {
    var a, b := Mirrored(cache, tenant, items, readers, now), Mirrored(cache', tenant, items, readers, now);
    forall key: (TenantId, string) | key.0 == tenant
      ensures key in a <==> key in b
      ensures key in a ==> a[key] == b[key]
    {
      SyncMirrorsTheRead(cache, tenant, items, readers, now, key);
      SyncMirrorsTheRead(cache', tenant, items, readers, now, key);
      if key in a {
        var agent :| agent in Usable(items) && agent.id == key.1;
        UsableIsRead(items, agent);
      }
    }
  }

  // What one tenant has in the books.
  predicate SameFor(books: Books, books': Books, tenant: TenantId) {
    && RowsOf(books'.agents, tenant) == RowsOf(books.agents, tenant)
    && (tenant in books.connections <==> tenant in books'.connections)
    && (tenant in books.connections ==> books'.connections[tenant] == books.connections[tenant])
  }

  lemma VisitLeavesOthers(books: Books, v: Visit, readers: Readers, tenant: TenantId)
    requires v.tenant in books.connections && !v.Raises(readers) && v.tenant != tenant
    ensures SameFor(books, Visited(books, v, readers), tenant)
  {
    if v.Read().Ok? {
      var after := Visited(books, v, readers).agents;
      forall key: (TenantId, string) | key.0 == tenant
        ensures key in after <==> key in books.agents
        ensures key in after ==> after[key] == books.agents[key]
      {
        SyncMirrorsTheRead(books.agents, v.tenant, v.Read().value, readers, v.now, key);
      }
    }
  }

  // A tenant that is not visited from `from` on keeps its rows and its connection.
  lemma {:induction false} UnvisitedKeeps(books: Books, visits: seq<Visit>, readers: Readers, tenant: TenantId,
      from: nat, n: nat)
    requires Connected(books.connections, visits) && from <= n <= |visits|
    requires forall k | from <= k < n :: visits[k].tenant != tenant
    ensures SameFor(Swept(books, visits, readers, from), Swept(books, visits, readers, n), tenant)
    decreases n
  {
    hide Visited, Visit.Raises, RowsOf;
    if from < n {
      UnvisitedKeeps(books, visits, readers, tenant, from, n - 1);
      if NoneRaises(visits, readers, n) {
        assert !visits[n - 1].Raises(readers);
        VisitLeavesOthers(Swept(books, visits, readers, n - 1), visits[n - 1], readers, tenant);
      }
    }
  }

  // What a sweep leaves of the tenant of visit `i`.
  ghost predicate LeftAs(before: Books, after: Books, v: Visit, readers: Readers, reached: bool)
    requires v.tenant in before.connections && v.tenant in after.connections
  {
    if reached && v.Read().Ok? then
      && RowsOf(after.agents, v.tenant)
           == RowsOf(Mirrored(before.agents, v.tenant, v.Read().value, readers, v.now), v.tenant)
      && after.connections[v.tenant] == Connection(Some(v.now), None)
    else
      && RowsOf(after.agents, v.tenant) == RowsOf(before.agents, v.tenant)
      && after.connections[v.tenant] ==
           if reached then before.connections[v.tenant].(lastSyncError := Some(v.Read().error))
           else before.connections[v.tenant]
  }

  // One visit to a tenant that is in the books as it was before the sweep.
  lemma VisitLeaves(before: Books, books: Books, v: Visit, readers: Readers)
    requires v.tenant in books.connections && !v.Raises(readers) && SameFor(before, books, v.tenant)
    ensures LeftAs(before, Visited(books, v, readers), v, readers, true)
  {
    if v.Read().Ok? {
      MirrorIsTheRead(books.agents, before.agents, v.tenant, v.Read().value, readers, v.now);
    }
  }

  /** A sweep of distinct tenants, exactly: a tenant is left with the mirror of its own
      read if it was read and no visit up to and including its own raises; if its read
      failed, with its old rows and the error noted; and if its own or any earlier visit
      raises, with its rows and its connection as they were - so one manager's answer
      does starve every tenant after it. */
  lemma SweepExactly(books: Books, visits: seq<Visit>, readers: Readers, i: nat)
    requires Connected(books.connections, visits)
    requires forall i, j | 0 <= i < j < |visits| :: visits[i].tenant != visits[j].tenant
    requires i < |visits|
    ensures LeftAs(books, Sweep(books, visits, readers), visits[i], readers, NoneRaises(visits, readers, i + 1))
  {
    hide Visited, Visit.Raises, RowsOf, Mirrored;
    var v, mid := visits[i], Swept(books, visits, readers, i);
    UnvisitedKeeps(books, visits, readers, v.tenant, 0, i);
    if NoneRaises(visits, readers, i + 1) {
      assert !visits[i].Raises(readers);
      VisitLeaves(books, mid, v, readers);
    }
    UnvisitedKeeps(books, visits, readers, v.tenant, i + 1, |visits|);
  }

  // A manager that gives one page and a total no greater is read for that page.
  lemma OnePage(items: seq<Item>, manager: Manager)
    requires 0 < |items| <= MAX_AGENTS && manager(0, 0) == Page(items, Some(|items|))
    ensures Paged(manager, 0, []) == Ok(items)
  {
    assert [] + items == items == items[..|items|];
  }

  /** Two tenants: the first one's manager reports an agent twice, and the second, whose
      manager answers well, goes unsynced. */
  lemma SecondIsStarved(agent: Reported, readers: Readers, now: Time) returns (books: Books, visits: seq<Visit>)
    requires agent.id != "" && Fits(agent, readers)
    ensures |visits| == 2 && visits[0].tenant != visits[1].tenant && Connected(books.connections, visits)
    ensures visits[0].Raises(readers) && visits[1].Read().Ok? && !visits[1].Raises(readers)
    ensures Sweep(books, visits, readers) == books
    ensures Visited(books, visits[1], readers) != books
  {
    var twice, once := [Object(agent), Object(agent)], [Object(agent)];
    var first := Visit("a", (call: nat, offset: nat) => Page(twice, Some(2)), now);
    var second := Visit("b", (call: nat, offset: nat) => Page(once, Some(1)), now);
    OnePage(twice, first.manager);
    TwiceRaises(agent, readers);
    OnePage(once, second.manager);
    OneAlone(agent, readers);
    books := Books(map[], map["a" := Connection(None, None), "b" := Connection(None, None)]);
    visits := [first, second];
    StopsAtFirst(books, visits, readers, 0, 2);
    assert Visited(books, second, readers).connections["b"] == Connection(Some(now), None);
  }
}
