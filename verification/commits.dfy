/** The consumer's whole transaction: what it writes, and which batches can commit. */
module Commits {
  import Partitions
  import opened Wrappers
  import opened Sorting
  import opened Model
  import opened Tables
  import opened Parser
  import opened IngestConsumer

  // ---- which batches can commit -----------------------------------------------

  // Some partition takes the date.
  predicate HasPartition(partitions: Partitions.Catalogue, d: Partitions.Date) {
    exists name | name in partitions :: InBounds(d, partitions[name])
  }

  predicate InBounds(d: Partitions.Date, bounds: Partitions.Bounds) {
    !Partitions.Before(d, bounds.from) && Partitions.Before(d, bounds.to)
  }

  // Every row has a partition to go to.
  predicate Routable(env: Env, partitions: Partitions.Catalogue, rows: seq<Row>) {
    forall i | 0 <= i < |rows| :: HasPartition(partitions, env.dateOf(rows[i].alert.timestamp))
  }

  // Every row's statistics have a tenant to refer to.
  predicate Known(tenants: map<TenantId, TenantConfig>, rows: seq<Row>) {
    forall i | 0 <= i < |rows| :: rows[i].alert.tenant in tenants
  }

  // Nothing in the batch makes the transaction abort.
  predicate CanCommit(env: Env, tenants: map<TenantId, TenantConfig>, partitions: Partitions.Catalogue,
      rows: seq<Row>)
  {
    Routable(env, partitions, rows) && Known(tenants, rows)
  }

  // ---- the statistics ---------------------------------------------------------

  // The tenants of a batch, in the order they first come.
  function TenantsOf(rows: seq<Row>): seq<TenantId> {
    if rows == [] then []
    else
      var before, t := TenantsOf(rows[..|rows| - 1]), rows[|rows| - 1].alert.tenant;
      if t in before then before else before + [t]
  }

  // One tenant's alerts and bytes in a batch.
  function SizeOf(batch: seq<Handled>, t: TenantId): Stat {
    if batch == [] then Stat(0, 0)
    else
      var before, entry := SizeOf(batch[..|batch| - 1], t), batch[|batch| - 1].entry;
      if entry.Entry? && entry.tenant == t then Stat(before.count + 1, before.bytes + entry.bytes) else before
  }

  function Of(tenant: TenantId): Row -> bool { (row: Row) => row.alert.tenant == tenant }

  /** A tenant's size counts exactly its rows. */
  lemma {:induction false} SizeCounts(env: Env, batch: seq<Handled>, t: TenantId)
    ensures SizeOf(batch, t).count == CountIf(Of(t), RowsOf(env, batch))
  {
    if batch != [] {
      var front, last := batch[..|batch| - 1], batch[|batch| - 1];
      SizeCounts(env, front, t);
      if last.entry.Entry? {
        var rows := RowsOf(env, batch);
        assert rows[..|rows| - 1] == RowsOf(env, front);
      }
    }
  }

  lemma {:induction false} TenantsAreOfRows(rows: seq<Row>)
    ensures Distinct(TenantsOf(rows))
    ensures forall t :: t in TenantsOf(rows) <==> exists i | 0 <= i < |rows| :: rows[i].alert.tenant == t
  {
    if rows != [] {
      var front := rows[..|rows| - 1];
      TenantsAreOfRows(front);
      forall t ensures t in TenantsOf(rows) <==> exists i | 0 <= i < |rows| :: rows[i].alert.tenant == t {
        if t in TenantsOf(front) {
          var i :| 0 <= i < |front| && front[i].alert.tenant == t;
          assert rows[i].alert.tenant == t;
        }
        if i :| 0 <= i < |rows| && rows[i].alert.tenant == t {
          if i < |front| { assert front[i].alert.tenant == t; }
        }
      }
    }
  }

  // One statement: a tenant's row of the day inserted or added to.
  function CountedTenant(stats: Stats, t: TenantId, size: Stat, today: int): Stats {
    var so := if (t, today) in stats then stats[(t, today)] else Stat(0, 0);
    stats[(t, today) := Stat(so.count + size.count, so.bytes + size.bytes)]
  }

  function Counted(stats: Stats, batch: seq<Handled>, order: seq<TenantId>, today: int): Stats {
    if order == [] then stats
    else
      var t := order[|order| - 1];
      CountedTenant(Counted(stats, batch, order[..|order| - 1], today), t, SizeOf(batch, t), today)
  }

  /** The statistics of each tenant of the batch rise by its size, today's only; all others
      stay. */
  lemma {:induction false} CountedHolds(stats: Stats, batch: seq<Handled>, order: seq<TenantId>, today: int,
      t: TenantId, day: int)
    requires Distinct(order)
    ensures var after := Counted(stats, batch, order, today);
      var so := if (t, day) in stats then stats[(t, day)] else Stat(0, 0);
      if day == today && t in order then
        && (t, day) in after
        && after[(t, day)] == Stat(so.count + SizeOf(batch, t).count, so.bytes + SizeOf(batch, t).bytes)
      else ((t, day) in after <==> (t, day) in stats) && ((t, day) in stats ==> after[(t, day)] == so)
    decreases order
  {
    hide SizeOf;
    if order != [] {
      var front, last := order[..|order| - 1], order[|order| - 1];
      CountedHolds(stats, batch, front, today, t, day);
      assert order == front + [last] && last !in front;
    }
  }

  lemma OneMoreCounted(stats: Stats, batch: seq<Handled>, order: seq<TenantId>, i: nat, today: int)
    requires i < |order|
    ensures Counted(stats, batch, order[..i + 1], today)
         == CountedTenant(Counted(stats, batch, order[..i], today), order[i], SizeOf(batch, order[i]), today)
  {
    assert order[..i + 1][..i] == order[..i];
  }

  // The statistics statements, tenant after tenant; the first of an unknown tenant is
  // refused by the foreign key.
  method CountStats(db: Database, sizes: map<TenantId, Stat>, order: seq<TenantId>, today: int,
      ghost batch: seq<Handled>) returns (ok: bool)
    requires forall t | t in order :: t in sizes && sizes[t] == SizeOf(batch, t)
    modifies db`stats
    ensures ok <==> forall t | t in order :: t in db.tenants
    ensures ok ==> db.stats == Counted(old(db.stats), batch, order, today)
  {
    hide SizeOf;
    for i := 0 to |order|
      invariant db.stats == Counted(old(db.stats), batch, order[..i], today)
      invariant forall k | 0 <= k < i :: order[k] in db.tenants
    {
      OneMoreCounted(old(db.stats), batch, order, i, today);
      var t := order[i];
      if t !in db.tenants { return false; }
      db.stats := CountedTenant(db.stats, t, sizes[t], today);
    }
    assert order[..|order|] == order;
    ok := true;
  }

  // ---- the transaction --------------------------------------------------------

  // What the first loop has gathered by tenant.
  ghost predicate Gathered(sizes: map<TenantId, Stat>, order: seq<TenantId>, batch: seq<Handled>) {
    && (forall t :: t in order <==> t in sizes)
    && (forall t: TenantId :: SizeOf(batch, t) == if t in sizes then sizes[t] else Stat(0, 0))
  }

  lemma OneMoreRow(env: Env, batch: seq<Handled>, i: nat)
    requires i < |batch|
    ensures RowsOf(env, batch[..i + 1])
         == RowsOf(env, batch[..i]) + if batch[i].entry.Entry? then [RowOf(env, batch[i])] else []
  {
    assert batch[..i + 1][..i] == batch[..i];
  }

  lemma OneMoreTenant(rows: seq<Row>, row: Row)
    ensures TenantsOf(rows + [row])
         == TenantsOf(rows) + if row.alert.tenant in TenantsOf(rows) then [] else [row.alert.tenant]
  {
    assert (rows + [row])[..|rows|] == rows;
  }

  // One statement of the loop on the dictionary.
  function Sized(sizes: map<TenantId, Stat>, entry: Entry): map<TenantId, Stat>
    requires entry.Entry?
  {
    var so := if entry.tenant in sizes then sizes[entry.tenant] else Stat(0, 0);
    sizes[entry.tenant := Stat(so.count + 1, so.bytes + entry.bytes)]
  }

  lemma OneMoreSize(sizes: map<TenantId, Stat>, order: seq<TenantId>, batch: seq<Handled>, i: nat)
    requires i < |batch| && Gathered(sizes, order, batch[..i])
    ensures var entry := batch[i].entry;
      if entry.Malformed? then Gathered(sizes, order, batch[..i + 1])
      else
        Gathered(Sized(sizes, entry), if entry.tenant in order then order else order + [entry.tenant], batch[..i + 1])
  {
    assert batch[..i + 1][..i] == batch[..i];
  }

  // The rows in order, and the dictionary of sizes with its order of insertion.
  method GatherRows(env: Env, batch: seq<Handled>)
      returns (rows: seq<Row>, sizes: map<TenantId, Stat>, order: seq<TenantId>)
    ensures rows == RowsOf(env, batch) && order == TenantsOf(rows) && Gathered(sizes, order, batch)
  {
    hide RowsOf, TenantsOf, SizeOf, Parse;
    rows, sizes, order := [], map[], [];
    NothingGathered(env);
    for i := 0 to |batch|
      invariant rows == RowsOf(env, batch[..i]) && order == TenantsOf(rows)
      invariant Gathered(sizes, order, batch[..i])
    {
      OneMoreRow(env, batch, i);
      OneMoreSize(sizes, order, batch, i);
      var entry := batch[i].entry;
      if entry.Malformed? { continue; }
      OneMoreTenant(rows, RowOf(env, batch[i]));
      RowIsOfEntry(env, batch[i]);
      rows := rows + [RowOf(env, batch[i])];
      if entry.tenant !in sizes { order := order + [entry.tenant]; }
      sizes := Sized(sizes, entry);
    }
    assert batch[..|batch|] == batch;
  }

  lemma NothingGathered(env: Env)
    ensures RowsOf(env, []) == [] && TenantsOf([]) == [] && Gathered(map[], [], [])
  {
  }

  lemma RowIsOfEntry(env: Env, h: Handled)
    requires h.entry.Entry?
    ensures RowOf(env, h).alert.tenant == h.entry.tenant
  {
  }

  // The alerts statement is refused when some row has no partition.
  method AllRoutable(env: Env, db: Database, rows: seq<Row>) returns (ok: bool)
    ensures ok <==> Routable(env, db.partitions, rows)
  {
    for i := 0 to |rows|
      invariant forall k | 0 <= k < i :: HasPartition(db.partitions, env.dateOf(rows[k].alert.timestamp))
    {
      if !HasPartition(db.partitions, env.dateOf(rows[i].alert.timestamp)) { return false; }
    }
    ok := true;
  }

  /** The whole transaction. It commits exactly when every row's date has a partition and
      its tenant is known, and then it leaves the two stages and the statistics; aborted,
      it leaves no change at all. */
  method WriteBatch(env: Env, db: Database, batch: seq<Handled>, today: int) returns (written: nat, committed: bool)
    modifies db`alerts, db`incidents, db`counters, db`entities, db`links, db`stats
    ensures committed <==> CanCommit(env, old(db.tenants), old(db.partitions), RowsOf(env, batch))
    ensures db.State() == if committed then Committed(env, old(db.State()), batch) else old(db.State())
    ensures db.stats == if committed then Counted(old(db.stats), batch, TenantsOf(RowsOf(env, batch)), today)
      else old(db.stats)
    ensures written == if committed then |RowsOf(env, batch)| else 0
  {
    hide RowsOf, TenantsOf, SizeOf, Counted, Fresh, SortBy, GroupAll, HasPartition;
    var rows, sizes, order := GatherRows(env, batch);
    if rows == [] {
      NothingWritten(env, db.State(), db.stats, batch, today);
      return 0, true;
    }
    var routable := AllRoutable(env, db, rows);
    if !routable { return 0, false; }
    var alerts, stats := db.alerts, db.stats;
    var inserted := InsertRows(db, rows);
    var known := CountStats(db, sizes, order, today, batch);
    KnownTenants(rows, db.tenants);
    if !known {
      db.alerts, db.stats := alerts, stats;
      return 0, false;
    }
    GroupLanded(env, db, rows, inserted, alerts);
    written, committed := |rows|, true;
  }

  // A batch of malformed entries only.
  lemma NothingWritten(env: Env, db: Db, stats: Stats, batch: seq<Handled>, today: int)
    requires RowsOf(env, batch) == []
    ensures Committed(env, db, batch) == db && Counted(stats, batch, TenantsOf([]), today) == stats
  {
  }

  method GroupLanded(env: Env, db: Database, rows: seq<Row>, inserted: set<AlertKey>,
      ghost alerts: map<AlertKey, Stored>)
    requires db.alerts == InsertAll(alerts, rows)
    requires forall i | 0 <= i < |rows| :: rows[i].Key() in inserted <==> rows[i].Key() !in alerts
    modifies db`alerts, db`incidents, db`counters, db`entities, db`links
    ensures db.State() == GroupAll(env, old(db.State()), SortBy(At, Fresh(alerts, rows)))
  {
    var landed := KeepFresh(rows, inserted, alerts);
    FreshLand(alerts, rows);
    Group(env, db, landed);
  }

  lemma KnownTenants(rows: seq<Row>, tenants: map<TenantId, TenantConfig>)
    ensures (forall t | t in TenantsOf(rows) :: t in tenants) <==> Known(tenants, rows)
  {
    TenantsAreOfRows(rows);
    forall i | 0 <= i < |rows| ensures rows[i].alert.tenant in TenantsOf(rows) {
    }
  }

  // ---- nothing delivered is lost from the sizes -------------------------------

  // The well-formed entries of a batch and their text, whosever they are.
  function TotalSize(batch: seq<Handled>): Stat {
    if batch == [] then Stat(0, 0)
    else
      var before, entry := TotalSize(batch[..|batch| - 1]), batch[|batch| - 1].entry;
      if entry.Entry? then Stat(before.count + 1, before.bytes + entry.bytes) else before
  }

  // The sizes of several tenants together.
  function SumOfSizes(batch: seq<Handled>, order: seq<TenantId>): Stat {
    if order == [] then Stat(0, 0)
    else
      var before, last := SumOfSizes(batch, order[..|order| - 1]), SizeOf(batch, order[|order| - 1]);
      Stat(before.count + last.count, before.bytes + last.bytes)
  }

  lemma {:induction false} NoSizes(order: seq<TenantId>)
    ensures SumOfSizes([], order) == Stat(0, 0)
    decreases |order|
  {
    if order != [] { NoSizes(order[..|order| - 1]); }
  }

  // One more entry adds to its own tenant only.
  lemma {:induction false} OneMoreSum(batch: seq<Handled>, order: seq<TenantId>)
    requires batch != [] && Distinct(order)
    ensures var before, after := SumOfSizes(batch[..|batch| - 1], order), SumOfSizes(batch, order);
      var entry := batch[|batch| - 1].entry;
      after == if entry.Entry? && entry.tenant in order then Stat(before.count + 1, before.bytes + entry.bytes)
               else before
    decreases |order|
  {
    if order != [] {
      var front, last := order[..|order| - 1], order[|order| - 1];
      OneMoreSum(batch, front);
      assert order == front + [last] && last !in front;
    }
  }

  /** The sizes of a batch's tenants add up to all its well-formed entries and all their
      text: nothing delivered is counted twice or for nobody. */
  lemma {:induction false} SizesAddUp(batch: seq<Handled>, order: seq<TenantId>)
    requires Distinct(order)
    requires forall i | 0 <= i < |batch| && batch[i].entry.Entry? :: batch[i].entry.tenant in order
    ensures SumOfSizes(batch, order) == TotalSize(batch)
    decreases |batch|
  {
    if batch == [] {
      NoSizes(order);
    } else {
      var front := batch[..|batch| - 1];
      assert forall i | 0 <= i < |front| :: front[i] == batch[i];
      SizesAddUp(front, order);
      OneMoreSum(batch, order);
    }
  }
}
