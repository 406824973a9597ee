/** From one raw alert to the row that is stored and grouped. */
module Parser {
  import opened Wrappers
  import opened Evidence
  import opened Model
  import opened Related
  import opened Tables
  import opened Fingerprint
  import opened Decimal

  const MAX_RULE_LEVEL := 15
  const MAX_DESCRIPTION := 2000

  // A raw alert after the text library's readings: the timestamp if it parses, the
  // integers or their defaults, the stripped id, and the values offered to each
  // entity collector.
  datatype Raw = Raw(
    timestamp: Option<Time>,
    id: string,
    ruleId: int,
    level: int,
    description: string,
    agentId: Option<string>,
    ecs: Ecs,
    candidates: map<Kind, seq<string>>)

  function Clamp(level: int): (clamped: int)
    ensures 0 <= clamped <= MAX_RULE_LEVEL
    ensures 0 <= level <= MAX_RULE_LEVEL ==> clamped == level
  {
    Max(0, Min(level, MAX_RULE_LEVEL))
  }

  function CollectRelated(ops: TextOps, candidates: map<Kind, seq<string>>): Entities {
    map kind | kind in candidates :: Collect(ops, candidates[kind])
  }

  // The id of an alert without one: its timestamp in seconds, with six decimals.
  function MadeUpId(at: Time): string { "noid-" + Millionths(at) }

  function Parse(ops: TextOps, tenant: TenantId, raw: Raw, receivedAt: Time): Alert {
    var timestamp := if raw.timestamp.Some? then raw.timestamp.value else receivedAt;
    var description :=
      if |raw.description| > MAX_DESCRIPTION then raw.description[..MAX_DESCRIPTION] else raw.description;
    var primary := PrimaryEntity(raw.ecs);
    Alert(tenant,
          if raw.id == "" then MadeUpId(timestamp) else raw.id,
          timestamp,
          raw.ruleId,
          Clamp(raw.level),
          if description == "" then "(no description)" else description,
          raw.ecs,
          CollectRelated(ops, raw.candidates),
          Material(tenant, raw.ruleId, raw.agentId, primary),
          primary)
  }

  /** The dedup key does not depend on when the alert is read exactly when its own
      timestamp parses. */
  lemma KeyIsStableIffTimestampParses(ops: TextOps, tenant: TenantId, raw: Raw)
    ensures raw.timestamp.Some? <==>
      forall a: Time, b: Time :: Parse(ops, tenant, raw, a).Key() == Parse(ops, tenant, raw, b).Key()
  {
    if raw.timestamp.None? {
      assert Parse(ops, tenant, raw, 0).Key().timestamp != Parse(ops, tenant, raw, 1).Key().timestamp;
    }
  }

  /** What the key tells apart: two alerts of a client whose timestamps parse share a key
      exactly when they agree on the instant and on the id, or one has none and the other
      bears the very id made up for that instant. */
  lemma SameKeyExactly(ops: TextOps, tenant: TenantId, raw: Raw, raw': Raw, a: Time, b: Time)
    requires raw.timestamp.Some? && raw'.timestamp.Some?
    ensures Parse(ops, tenant, raw, a).Key() == Parse(ops, tenant, raw', b).Key() <==>
      raw.timestamp == raw'.timestamp &&
      (raw.id == raw'.id
       || (raw.id == "" && raw'.id == MadeUpId(raw.timestamp.value))
       || (raw'.id == "" && raw.id == MadeUpId(raw.timestamp.value)))
  {
    assert MadeUpId(raw.timestamp.value)[0] == 'n';
  }

  // It happens: an alert without an id, and one that bears its made-up id.
  lemma MadeUpIdCollides(ops: TextOps, tenant: TenantId, raw: Raw, at: Time)
    ensures var first := raw.(id := "", timestamp := Some(17 * SECOND));
      var second := raw.(id := "noid-17.000000", timestamp := Some(17 * SECOND));
      Parse(ops, tenant, first, at).Key() == Parse(ops, tenant, second, at).Key()
  {
    SeventeenSeconds();
    SameKeyExactly(ops, tenant, raw.(id := "", timestamp := Some(17 * SECOND)),
                   raw.(id := "noid-17.000000", timestamp := Some(17 * SECOND)), at, at);
  }

  lemma SeventeenSeconds()
    ensures MadeUpId(17 * SECOND) == "noid-17.000000"
  {
    hide LastDigits;
    SixZeros();
    assert NatText(17) == NatText(1) + "7" && NatText(1) == "1";
  }

  // Agent and entity tell alerts apart unless the agent id holds the separator.
  predicate PlainAgent(raw: Raw) { raw.agentId.Some? ==> '|' !in raw.agentId.value }

  // A missing agent id stands as the empty text.
  predicate SameAgent(a: Option<string>, b: Option<string>) {
    a == b || (a.None? && b == Some("")) || (b.None? && a == Some(""))
  }

  /** Which alerts are grouped together: whatever their clocks, two parsed alerts bear the
      same fingerprint exactly when they are of one tenant, one rule, one agent and one
      primary entity. */
  lemma SameFingerprintOfAlerts(ops: TextOps, tenant: TenantId, raw: Raw, a: Time, tenant': TenantId, raw': Raw,
      b: Time)
    requires PlainAgent(raw) && PlainAgent(raw')
    ensures var first, second := Parse(ops, tenant, raw, a), Parse(ops, tenant', raw', b);
      first.fingerprint == second.fingerprint <==>
        && tenant == tenant' && raw.ruleId == raw'.ruleId && SameAgent(raw.agentId, raw'.agentId)
        && first.primary == second.primary
  {
    hide PrimaryEntity;
    SameFingerprintExactly(tenant, raw.ruleId, raw.agentId, PrimaryEntity(raw.ecs),
                           tenant', raw'.ruleId, raw'.agentId, PrimaryEntity(raw'.ecs));
  }

  // The level, brought into 0 to 15.
  predicate LevelOf(level: int, raw: int) {
    if raw < 0 then level == 0 else if raw > 15 then level == 15 else level == raw
  }

  // At most 2000 characters of the description, and never nothing.
  predicate DescriptionOf(text: string, raw: string) {
    if raw == "" then text == "(no description)"
    else if |raw| <= 2000 then text == raw
    else |text| == 2000 && text == raw[..2000]
  }

  /** What an alert carries: the tenant it came for, its own instant or that of receipt, its
      rule, its level, its description, its document, the entities collected from it, and
      the primary entity of that document. */
  lemma ParsedIs(ops: TextOps, tenant: TenantId, raw: Raw, at: Time)
    ensures var alert := Parse(ops, tenant, raw, at);
      && alert.tenant == tenant && alert.ruleId == raw.ruleId && alert.ecs == raw.ecs
      && (raw.timestamp.Some? ==> alert.timestamp == raw.timestamp.value)
      && (raw.timestamp.None? ==> alert.timestamp == at)
      && (raw.id != "" ==> alert.wazuhId == raw.id)
      && LevelOf(alert.ruleLevel, raw.level) && DescriptionOf(alert.ruleDesc, raw.description)
      && IsPrimary(raw.ecs, alert.primary)
      && alert.related.Keys == raw.candidates.Keys
      && forall kind | kind in raw.candidates :: alert.related[kind] == Collect(ops, raw.candidates[kind])
  {
    PrimaryEntityIs(raw.ecs, PrimaryEntity(raw.ecs));
  }

  lemma RelatedIsDistinct(ops: TextOps, tenant: TenantId, raw: Raw, receivedAt: Time)
    ensures forall kind | kind in Parse(ops, tenant, raw, receivedAt).related ::
      Distinct(Parse(ops, tenant, raw, receivedAt).related[kind])
  {
    forall kind | kind in raw.candidates ensures Distinct(Collect(ops, raw.candidates[kind])) {
      CollectedIsDistinct(ops, raw.candidates[kind]);
    }
  }
}
