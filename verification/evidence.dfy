/** The evidence snapshot folded onto an incident as alerts join it. */
module Evidence {
  import opened Wrappers
  import opened Decimal
  import opened Sorting

  const MAX_BYTES := 32 * 1024
  const MAX_ENTITIES_PER_TYPE := 50
  const MAX_ECS_FIELDS := 40
  const MAX_TEXT := 512
  const SHED_ENTITIES := 5
  // What `, "truncated": true` adds to the encoded snapshot.
  const FLAG_BYTES := 19

  datatype Kind = Ip | User | Host | Hash

  // A document is a dictionary in insertion order.
  datatype EcsValue = Null | Text(text: string) | Scalar(repr: string) | Nested(repr: string)
  type Ecs = seq<(string, EcsValue)>

  type Entities = map<Kind, seq<string>>

  datatype Doc = Doc(at: int, ruleDesc: string, ruleLevel: int, ecs: Ecs)

  datatype Snapshot = Snapshot(first: Option<Doc>, latest: Option<Doc>, entities: Entities, truncated: bool)

  const EMPTY := Snapshot(None, None, map[], false)

  // What the fold reads of one alert.
  datatype View = View(at: int, ruleDesc: string, ruleLevel: int, ecs: Ecs, related: Entities)

  // ---- trimming a document ----------------------------------------------------

  function TrimValue(value: EcsValue): EcsValue {
    if value.Text? && |value.text| > MAX_TEXT then Text(value.text[..MAX_TEXT] + "\U{2026}") else value
  }

  function Trim(ecs: Ecs): (trimmed: Ecs) {
    seq(Min(|ecs|, MAX_ECS_FIELDS), i requires 0 <= i < |ecs| => (ecs[i].0, TrimValue(ecs[i].1)))
  }

  method TrimEcs(ecs: Ecs) returns (trimmed: Ecs)
    ensures trimmed == Trim(ecs)
    ensures |trimmed| <= MAX_ECS_FIELDS
    ensures forall i | 0 <= i < |trimmed| ::
      && trimmed[i].0 == ecs[i].0
      && (trimmed[i].1 == ecs[i].1 ||
            (ecs[i].1.Text? && |ecs[i].1.text| > MAX_TEXT && trimmed[i].1.Text?
             && |trimmed[i].1.text| == MAX_TEXT + 1 && trimmed[i].1.text[..MAX_TEXT] == ecs[i].1.text[..MAX_TEXT]))
      && (trimmed[i].1.Text? ==> |trimmed[i].1.text| <= MAX_TEXT + 1)
  {
    trimmed := [];
    for i := 0 to Min(|ecs|, MAX_ECS_FIELDS)
      invariant |trimmed| == i
      invariant forall k | 0 <= k < i :: trimmed[k] == (ecs[k].0, TrimValue(ecs[k].1))
    {
      var value := ecs[i].1;
      if value.Text? && |value.text| > MAX_TEXT {
        value := Text(value.text[..MAX_TEXT] + "\U{2026}");
      }
      trimmed := trimmed + [(ecs[i].0, value)];
    }
  }

  // ---- merging entity lists ---------------------------------------------------

  // First occurrences, in order.
  function Dedup(s: seq<string>): seq<string> {
    if s == [] then []
    else
      var d, last := Dedup(s[..|s| - 1]), s[|s| - 1];
      if last in d then d else d + [last]
  }

  lemma {:induction false} DedupIsDistinct(s: seq<string>)
    ensures Distinct(Dedup(s))
    ensures forall x :: x in Dedup(s) <==> x in s
  {
    if s != [] {
      DedupIsDistinct(s[..|s| - 1]);
      assert s == s[..|s| - 1] + [s[|s| - 1]];
    }
  }

  lemma {:induction false} DedupExtends(a: seq<string>, b: seq<string>)
    ensures Dedup(a) <= Dedup(a + b)
  {
    if b == [] {
      assert a + b == a;
    } else {
      DedupExtends(a, b[..|b| - 1]);
      assert (a + b)[..|a + b| - 1] == a + b[..|b| - 1];
    }
  }

  lemma {:induction false} DedupOfDistinct(a: seq<string>)
    requires Distinct(a)
    ensures Dedup(a) == a
  {
    if a != [] {
      var front := a[..|a| - 1];
      DedupOfDistinct(front);
      assert a == front + [a[|a| - 1]];
    }
  }

  // The first occurrences in a sequence.
  function FirstsOf(s: seq<string>): nat -> bool { (k: nat) => k < |s| && s[k] !in s[..k] }

  lemma {:induction false} DedupPositions(s: seq<string>) returns (at: seq<nat>)
    ensures Taken(s, at, Dedup(s)) && Rising(at) && Exactly(at, |s|, FirstsOf(s))
    decreases |s|
  {
    if s == [] {
      at := [];
    } else {
      var n := |s| - 1;
      at := DedupPositions(s[..n]);
      DedupIsDistinct(s[..n]);
      forall k: nat | k < n ensures FirstsOf(s[..n])(k) == FirstsOf(s)(k) { assert s[..n][..k] == s[..k]; }
      ExactlySame(at, n, FirstsOf(s[..n]), FirstsOf(s));
      OneMorePosition(at, n, FirstsOf(s));
      if s[n] !in s[..n] { at := at + [n]; }
    }
  }

  function Capped(s: seq<string>, n: nat): seq<string> {
    if |s| <= n then s else s[..n]
  }

  function MergeList(seen: seq<string>, values: seq<string>): seq<string> {
    Capped(Dedup(seen + values), MAX_ENTITIES_PER_TYPE)
  }

  function ListAt(entities: Entities, kind: Kind): seq<string> {
    if kind in entities then entities[kind] else []
  }

  function Merge(existing: Entities, related: Entities): Entities {
    map kind | kind in existing.Keys + related.Keys ::
      if kind in related then MergeList(ListAt(existing, kind), related[kind]) else existing[kind]
  }

  ghost predicate WellFormedLists(entities: Entities) {
    forall kind | kind in entities :: Distinct(entities[kind]) && |entities[kind]| <= MAX_ENTITIES_PER_TYPE
  }

  // Nothing is lost but to the cap, and nothing comes from elsewhere.
  ghost predicate Joins(seen: seq<string>, values: seq<string>, merged: seq<string>) {
    && seen <= merged
    && (forall x | x in merged :: x in seen || x in values)
    && (forall x | x in values :: x in merged || |merged| == 50)
  }

  lemma MergeListJoins(seen: seq<string>, values: seq<string>)
    requires Distinct(seen) && |seen| <= MAX_ENTITIES_PER_TYPE
    ensures Distinct(MergeList(seen, values)) && |MergeList(seen, values)| <= MAX_ENTITIES_PER_TYPE
    ensures Joins(seen, values, MergeList(seen, values))
  {
    var all := Dedup(seen + values);
    DedupIsDistinct(seen + values);
    DedupExtends(seen, values);
    DedupOfDistinct(seen);
    forall x | x in MergeList(seen, values) ensures x in seen || x in values {
      assert x in all;
    }
  }

  /** One list and an alert's values, exactly: the first fifty of the different values of both,
      in their order. */
  lemma MergedExactly(seen: seq<string>, values: seq<string>) returns (at: seq<nat>)
    ensures Rising(at)
    ensures forall k: nat :: k in at <==> k < |seen + values| && (seen + values)[k] !in (seen + values)[..k]
    ensures |MergeList(seen, values)| == (if |at| <= 50 then |at| else 50)
    ensures forall i | 0 <= i < |MergeList(seen, values)| ::
      at[i] < |seen + values| && MergeList(seen, values)[i] == (seen + values)[at[i]]
  {
    at := DedupPositions(seen + values);
    forall k: nat
      ensures k in at <==> k < |seen + values| && (seen + values)[k] !in (seen + values)[..k]
    {
      assert k in at <==> k < |seen + values| && FirstsOf(seen + values)(k);
    }
  }

  lemma MergeJoins(existing: Entities, related: Entities, kind: Kind)
    requires WellFormedLists(existing)
    ensures WellFormedLists(Merge(existing, related))
    ensures Joins(ListAt(existing, kind), ListAt(related, kind), ListAt(Merge(existing, related), kind))
  {
    forall k | k in related
      ensures Distinct(MergeList(ListAt(existing, k), related[k]))
      ensures |MergeList(ListAt(existing, k), related[k])| <= MAX_ENTITIES_PER_TYPE
      ensures Joins(ListAt(existing, k), related[k], MergeList(ListAt(existing, k), related[k]))
    {
      MergeListJoins(ListAt(existing, k), related[k]);
    }
  }

  // ---- the shedding ladder ----------------------------------------------------

  function ToDoc(v: View): Doc {
    Doc(v.at, v.ruleDesc, v.ruleLevel, Trim(v.ecs))
  }

  // Rung 0: everything kept.
  function Full(old_: Snapshot, v: View, isFirst: bool): Snapshot {
    Snapshot(if isFirst || old_.first.None? then Some(ToDoc(v)) else old_.first,
             Some(ToDoc(v)), Merge(old_.entities, v.related), old_.truncated)
  }

  function WithoutEcs(doc: Option<Doc>): Option<Doc> {
    if doc.None? then None else Some(doc.value.(ecs := []))
  }

  function CutLists(entities: Entities): Entities {
    map kind | kind in entities :: Capped(entities[kind], SHED_ENTITIES)
  }

  // Rungs 1, 2 and 3, each shedding one part more.
  function DropLatest(s: Snapshot): Snapshot { s.(latest := WithoutEcs(s.latest)) }

  function DropEntities(s: Snapshot): Snapshot { s.(entities := CutLists(s.entities), truncated := true) }

  function DropFirst(s: Snapshot): Snapshot { s.(first := WithoutEcs(s.first)) }

  function Update(old_: Snapshot, v: View, isFirst: bool, size: Snapshot -> nat): Snapshot {
    var s0 := Full(old_, v, isFirst);
    var s1 := DropLatest(s0);
    var s2 := DropEntities(s1);
    if size(s0) <= MAX_BYTES then s0
    else if size(s1) <= MAX_BYTES then s1.(truncated := true)
    else if size(s2) <= MAX_BYTES then s2
    else DropFirst(s2)
  }

  /** The update as written: one snapshot changed in place, shedding until it fits. */
  method UpdateInPlace(old_: Snapshot, v: View, isFirst: bool, size: Snapshot -> nat) returns (snapshot: Snapshot)
    ensures snapshot == Update(old_, v, isFirst, size)
  {
    snapshot := old_;
    var trimmed := TrimEcs(v.ecs);
    if isFirst || snapshot.first.None? {
      snapshot := snapshot.(first := Some(Doc(v.at, v.ruleDesc, v.ruleLevel, trimmed)));
    }
    snapshot := snapshot.(latest := Some(Doc(v.at, v.ruleDesc, v.ruleLevel, trimmed)));
    snapshot := snapshot.(entities := Merge(snapshot.entities, v.related));
    if size(snapshot) <= MAX_BYTES { return; }
    snapshot := snapshot.(latest := Some(snapshot.latest.value.(ecs := [])));
    if size(snapshot) <= MAX_BYTES {
      snapshot := snapshot.(truncated := true);
      return;
    }
    snapshot := snapshot.(entities := CutLists(snapshot.entities));
    snapshot := snapshot.(truncated := true);
    if size(snapshot) <= MAX_BYTES { return; }
    snapshot := snapshot.(first := Some(snapshot.first.value.(ecs := [])));
  }

  // ---- what an update does ----------------------------------------------------

  /** A trimmed document: its first forty fields in order, a text of more than 512
      characters cut there and marked, every other value as it was. */
  lemma TrimmedIs(ecs: Ecs)
    ensures |Trim(ecs)| == if |ecs| <= 40 then |ecs| else 40
    ensures forall i | 0 <= i < |Trim(ecs)| ::
      && Trim(ecs)[i].0 == ecs[i].0
      && (if ecs[i].1.Text? && |ecs[i].1.text| > 512
          then Trim(ecs)[i].1 == Text(ecs[i].1.text[..512] + "\U{2026}")
          else Trim(ecs)[i].1 == ecs[i].1)
  {
  }

  // Everything of the alert kept: its trimmed document is the latest, and the first if there
  // was none; its values are joined to the lists.
  ghost predicate IsComplete(full: Snapshot, before: Snapshot, v: View, isFirst: bool) {
    && full.latest == Some(Doc(v.at, v.ruleDesc, v.ruleLevel, Trim(v.ecs)))
    && full.first == (if isFirst || before.first.None? then full.latest else before.first)
    && full.truncated == before.truncated
    && (forall kind ::
          kind in full.entities <==> kind in before.entities || kind in v.related)
    && (WellFormedLists(before.entities) ==>
          forall kind :: Joins(ListAt(before.entities, kind), ListAt(v.related, kind), ListAt(full.entities, kind)))
  }

  // The complete snapshot with the latest body shed; the lists cut to five as well; the
  // first body shed as well.
  ghost predicate IsShed(s: Snapshot, full: Snapshot, cut: bool, bare: bool) {
    && s.latest == WithoutBody(full.latest)
    && s.first == (if bare then WithoutBody(full.first) else full.first)
    && s.entities.Keys == full.entities.Keys
    && (forall kind | kind in full.entities ::
          var list := full.entities[kind];
          s.entities[kind] == if cut && |list| > 5 then list[..5] else list)
  }

  function WithoutBody(doc: Option<Doc>): Option<Doc> {
    if doc.None? then None else Some(Doc(doc.value.at, doc.value.ruleDesc, doc.value.ruleLevel, []))
  }

  /** What an update leaves: everything, if that fits in 32 KiB; else the first of three
      snapshots, each shedding one part more, that fits, or the last even if it does not;
      and the flag is set exactly if something was shed or it was set before. */
  lemma UpdateExactly(before: Snapshot, v: View, isFirst: bool, size: Snapshot -> nat)
    ensures var s, full := Update(before, v, isFirst, size), Full(before, v, isFirst);
      var one := full.(latest := WithoutBody(full.latest));
      && IsComplete(full, before, v, isFirst)
      && (size(full) <= 32768 ==> s == full)
      && (size(full) > 32768 ==>
            && s.truncated
            && if size(one) <= 32768 then IsShed(s, full, false, false)
               else exists two ::
                 && IsShed(two, full, true, false) && two.truncated
                 && if size(two) <= 32768 then s == two else IsShed(s, full, true, true))
  {
    var full := Full(before, v, isFirst);
    if WellFormedLists(before.entities) {
      forall kind
        ensures Joins(ListAt(before.entities, kind), ListAt(v.related, kind), ListAt(full.entities, kind))
      {
        MergeJoins(before.entities, v.related, kind);
      }
    }
    var two := DropEntities(DropLatest(full));
    assert IsShed(two, full, true, false) && two.truncated;
  }

  // ---- what every fold keeps --------------------------------------------------

  function Fold(views: seq<View>, size: Snapshot -> nat): Snapshot {
    if views == [] then EMPTY
    else Update(Fold(views[..|views| - 1], size), views[|views| - 1], |views| == 1, size)
  }

  // Nothing but the document bodies, the lists' tails and the flag is ever shed.
  ghost predicate AllShed(s: Snapshot) {
    && s.first.Some? && s.first.value.ecs == []
    && s.latest.Some? && s.latest.value.ecs == []
    && forall kind | kind in s.entities :: |s.entities[kind]| <= SHED_ENTITIES
  }

  lemma OneUpdate(old_: Snapshot, v: View, isFirst: bool, size: Snapshot -> nat)
    ensures var s, full := Update(old_, v, isFirst, size), Full(old_, v, isFirst);
      && s.first.Some? && full.first.Some?
      && s.first.value == full.first.value.(ecs := s.first.value.ecs)
      && (s.first.value.ecs == full.first.value.ecs || s.first.value.ecs == [])
      && s.latest.Some?
      && s.latest.value == ToDoc(v).(ecs := s.latest.value.ecs)
      && (s.latest.value.ecs == Trim(v.ecs) || s.latest.value.ecs == [])
      && (s.entities == full.entities || s.entities == CutLists(full.entities))
  {
  }

  /** `first` is about the first alert for ever: its time, description and level
      are that alert's, and its body is that alert's trimmed body or nothing. */
  lemma {:induction false} FirstIsTheFirstAlert(views: seq<View>, size: Snapshot -> nat)
    requires views != []
    ensures var s := Fold(views, size);
      && s.first.Some?
      && s.first.value == ToDoc(views[0]).(ecs := s.first.value.ecs)
      && (s.first.value.ecs == Trim(views[0].ecs) || s.first.value.ecs == [])
      && s.latest.Some?
      && s.latest.value == ToDoc(views[|views| - 1]).(ecs := s.latest.value.ecs)
  {
    var front := views[..|views| - 1];
    OneUpdate(Fold(front, size), views[|views| - 1], |views| == 1, size);
    if front != [] {
      FirstIsTheFirstAlert(front, size);
    }
  }

  /** Once shed, the first body never comes back, and it is shed only when every
      earlier rung was still over the limit. */
  lemma FirstBodyGoesLast(old_: Snapshot, v: View, size: Snapshot -> nat)
    requires old_.first.Some?
    ensures var s := Update(old_, v, false, size);
      && s.first.Some?
      && (old_.first.value.ecs == [] ==> s.first.value.ecs == [])
      && (s.first.value.ecs != old_.first.value.ecs ==>
            && s.first.value.ecs == []
            && size(Full(old_, v, false)) > MAX_BYTES
            && size(DropLatest(Full(old_, v, false))) > MAX_BYTES
            && size(DropEntities(DropLatest(Full(old_, v, false)))) > MAX_BYTES)
  {
  }

  // A list joined by an alert's values, or that cut to five.
  ghost predicate JoinsUnlessCut(before: seq<string>, values: seq<string>, after: seq<string>) {
    || Joins(before, values, after)
    || (|after| == SHED_ENTITIES && exists merged :: Joins(before, values, merged) && after <= merged)
  }

  lemma ListsAfterUpdate(old_: Snapshot, v: View, isFirst: bool, kind: Kind, size: Snapshot -> nat)
    requires WellFormedLists(old_.entities)
    ensures var s := Update(old_, v, isFirst, size);
      && WellFormedLists(s.entities)
      && JoinsUnlessCut(ListAt(old_.entities, kind), ListAt(v.related, kind), ListAt(s.entities, kind))
  {
    var merged := Merge(old_.entities, v.related);
    MergeJoins(old_.entities, v.related, kind);
    OneUpdate(old_, v, isFirst, size);
    CutIsPrefix(merged, kind);
    assert Joins(ListAt(old_.entities, kind), ListAt(v.related, kind), ListAt(merged, kind));
  }

  /** Entity lists over any fold: no duplicates and never above the cap; one more alert
      extends each list by its own new values, losing none but to the cap, unless the
      lists are cut to five, and a cut list is a prefix of that. */
  lemma {:induction false} EntityListsOverFold(views: seq<View>, v: View, kind: Kind, size: Snapshot -> nat)
    ensures WellFormedLists(Fold(views + [v], size).entities)
    ensures JoinsUnlessCut(ListAt(Fold(views, size).entities, kind), ListAt(v.related, kind),
                           ListAt(Fold(views + [v], size).entities, kind))
  {
    if views != [] {
      EntityListsOverFold(views[..|views| - 1], views[|views| - 1], kind, size);
      assert views[..|views| - 1] + [views[|views| - 1]] == views;
    }
    assert (views + [v])[..|views|] == views;
    ListsAfterUpdate(Fold(views, size), v, views == [], kind, size);
  }

  lemma CutIsPrefix(entities: Entities, kind: Kind)
    requires WellFormedLists(entities)
    ensures WellFormedLists(CutLists(entities))
    ensures ListAt(CutLists(entities), kind) == Capped(ListAt(entities, kind), SHED_ENTITIES)
  {
  }

  // How the encoder charges for the flag.
  ghost predicate ChargesForFlag(size: Snapshot -> nat) {
    forall s: Snapshot | !s.truncated :: size(s.(truncated := true)) == size(s) + FLAG_BYTES
  }

  /** The 32 KiB cap, exactly.  A result is over the limit in two cases only: the
      second rung was measured before the flag was added and had less than the
      flag's room left, or even the last rung (returned unmeasured) did not fit;
      in that last case there is nothing left to shed. */
  lemma OverLimitExactly(old_: Snapshot, v: View, isFirst: bool, size: Snapshot -> nat)
    requires ChargesForFlag(size)
    ensures var s0 := Full(old_, v, isFirst);
      var s1 := DropLatest(s0);
      var s2 := DropEntities(s1);
      var r := Update(old_, v, isFirst, size);
      && (size(r) > MAX_BYTES <==>
            && size(s0) > MAX_BYTES
            && if size(s1) <= MAX_BYTES then !old_.truncated && size(s1) > MAX_BYTES - FLAG_BYTES
               else size(s2) > MAX_BYTES && size(DropFirst(s2)) > MAX_BYTES)
      && (size(r) > MAX_BYTES + FLAG_BYTES ==> AllShed(r))
  {
    var s1 := DropLatest(Full(old_, v, isFirst));
    if !s1.truncated {
      assert size(s1.(truncated := true)) == size(s1) + FLAG_BYTES;
    } else {
      assert s1.(truncated := true) == s1;
    }
  }

  // ---- the overshoot, for an encoder that adds up the text --------------------

  // A quoted text; an escaped character would only make it longer.
  function Quoted(text: string): nat { |text| + 2 }

  function ValueBytes(value: EcsValue): nat {
    match value
    case Null => 4
    case Text(text) => Quoted(text)
    case Scalar(repr) => |repr|
    case Nested(repr) => |repr|
  }

  // The fields of a dictionary, each a name, a colon and a value, with commas between.
  function EcsBytes(ecs: Ecs): nat {
    if ecs == [] then 0
    else
      var last := ecs[|ecs| - 1];
      EcsBytes(ecs[..|ecs| - 1]) + (if |ecs| > 1 then 2 else 0) + Quoted(last.0) + 2 + ValueBytes(last.1)
  }

  function TextsBytes(texts: seq<string>): nat {
    if texts == [] then 0
    else TextsBytes(texts[..|texts| - 1]) + (if |texts| > 1 then 2 else 0) + Quoted(texts[|texts| - 1])
  }

  // A quoted instant on a whole second of universal time.
  const STAMP_BYTES := 27

  // {"at": ..., "rule_desc": ..., "rule_level": ..., "ecs": {...}}
  function DocBytes(doc: Doc): nat {
    2 + Quoted("at") + 2 + STAMP_BYTES + 2 + Quoted("rule_desc") + 2 + Quoted(doc.ruleDesc)
    + 2 + Quoted("rule_level") + 2 + |IntText(doc.ruleLevel)| + 2 + Quoted("ecs") + 2 + 2 + EcsBytes(doc.ecs)
  }

  function KindBytes(entities: Entities, kind: Kind, name: string): nat {
    if kind in entities then Quoted(name) + 2 + 2 + TextsBytes(entities[kind]) else 0
  }

  // {"first": ..., "latest": ..., "entities": {...}, "truncated": true}
  function SnapshotBytes(s: Snapshot): nat {
    2
    + (if s.first.Some? then Quoted("first") + 2 + DocBytes(s.first.value) else 0)
    + (if s.latest.Some? then 2 + Quoted("latest") + 2 + DocBytes(s.latest.value) else 0)
    + 2 + Quoted("entities") + 2 + 2
    + KindBytes(s.entities, Ip, "related_ip") + KindBytes(s.entities, User, "related_user")
    + KindBytes(s.entities, Host, "related_host") + KindBytes(s.entities, Hash, "related_hash")
    + (if |s.entities| > 1 then 2 * (|s.entities| - 1) else 0)
    + (if s.truncated then FLAG_BYTES else 0)
  }

  lemma AddingUpChargesForFlag()
    ensures ChargesForFlag(SnapshotBytes)
    ensures FLAG_BYTES == |", \"truncated\": true"|
  {
    forall s: Snapshot | !s.truncated ensures SnapshotBytes(s.(truncated := true)) == SnapshotBytes(s) + FLAG_BYTES {
    }
  }

  // One field holding a structure whose text has some length.
  function Bulky(n: nat): Ecs { [("x", Nested(seq(n, _ => 'a')))] }

  lemma BulkyBytes(n: nat)
    ensures Trim(Bulky(n)) == Bulky(n) && EcsBytes(Bulky(n)) == 5 + n
  {
    assert Bulky(n)[..0] == [];
  }

  // One alert whose document is all but one field.
  function BulkyView(n: nat): View { View(0, "", 0, Bulky(n), map[]) }

  const BARE := SnapshotBytes(Full(EMPTY, View(0, "", 0, [], map[]), true))

  lemma BareIsSmall()
    ensures BARE + 5 <= MAX_BYTES
  {
    assert Trim([]) == [];
  }

  // The field is counted in the first document and in the latest.
  lemma BulkySnapshot(n: nat)
    ensures var full := Full(EMPTY, BulkyView(n), true);
      && SnapshotBytes(full) == BARE + 2 * (5 + n)
      && SnapshotBytes(DropLatest(full)) == BARE + 5 + n
      && !full.truncated
  {
    BulkyBytes(n);
    assert Trim([]) == [];
  }

  /** The overshoot happens for an encoder that adds up the text of the snapshot: one alert
      of a suitable length, and the flag carries its snapshot over the limit. */
  lemma FlagCanOvershoot() returns (v: View)
    ensures SnapshotBytes(Update(EMPTY, v, true, SnapshotBytes)) == MAX_BYTES + FLAG_BYTES
  {
    hide SnapshotBytes, BulkyView, Full;
    BareIsSmall();
    var n: nat := MAX_BYTES - BARE - 5;
    v := BulkyView(n);
    BulkySnapshot(n);
    AddingUpChargesForFlag();
  }
}
