/** The grouping fingerprint. */
module Fingerprint {
  // The digest is idealised as injective, so a fingerprint is represented by the text that
  // is digested.

  import opened Wrappers
  import opened Evidence
  import opened Model
  import opened Decimal

  const SOURCE_IP := "source.ip"
  const USER_NAME := "user.name"
  const HOST_NAME := "host.name"

  function Lookup(ecs: Ecs, path: string): EcsValue {
    if ecs == [] then Null
    else if ecs[|ecs| - 1].0 == path then ecs[|ecs| - 1].1
    else Lookup(ecs[..|ecs| - 1], path)
  }

  // The text of a usable value; structures and empty values are passed over.
  function UsableText(value: EcsValue): Option<string> {
    match value
    case Null => None
    case Nested(_) => None
    case Text(text) => if text == "" then None else Some(text)
    case Scalar(repr) => Some(repr)
  }

  function PrimaryEntity(ecs: Ecs): string {
    var ip, user := UsableText(Lookup(ecs, SOURCE_IP)), UsableText(Lookup(ecs, USER_NAME));
    var host := UsableText(Lookup(ecs, HOST_NAME));
    if ip.Some? then ip.value else if user.Some? then user.value else if host.Some? then host.value else ""
  }

  // The document's value at a path is this text: a text or a scalar, not empty, not null
  // and no structure.
  predicate Bears(ecs: Ecs, path: string, text: string) {
    exists k | 0 <= k < |ecs| :: BearsAt(ecs, path, text, k)
  }

  predicate BearsAt(ecs: Ecs, path: string, text: string, k: nat)
    requires k < |ecs|
  {
    && ecs[k].0 == path && (forall l | k < l < |ecs| :: ecs[l].0 != path)
    && (ecs[k].1 == Scalar(text) || (ecs[k].1 == Text(text) && text != ""))
  }

  ghost predicate BearsNone(ecs: Ecs, path: string) { forall text :: !Bears(ecs, path, text) }

  lemma {:induction false} LookupBears(ecs: Ecs, path: string, text: string)
    ensures UsableText(Lookup(ecs, path)) == Some(text) <==> Bears(ecs, path, text)
  {
    if ecs != [] {
      var n := |ecs| - 1;
      if ecs[n].0 == path {
        if Bears(ecs, path, text) {
          var k :| 0 <= k < |ecs| && BearsAt(ecs, path, text, k);
          assert k == n;
        }
        if UsableText(ecs[n].1) == Some(text) { assert BearsAt(ecs, path, text, n); }
      } else {
        LookupBears(ecs[..n], path, text);
        if Bears(ecs, path, text) {
          var k :| 0 <= k < |ecs| && BearsAt(ecs, path, text, k);
          assert BearsAt(ecs[..n], path, text, k);
        }
        if Bears(ecs[..n], path, text) {
          var k :| 0 <= k < n && BearsAt(ecs[..n], path, text, k);
          assert BearsAt(ecs, path, text, k);
        }
      }
    }
  }

  // Which text is the primary entity of a document: that of the first of the three paths
  // that bears one, and the empty text when none does.
  ghost predicate IsPrimary(ecs: Ecs, text: string) {
    || Bears(ecs, "source.ip", text)
    || (BearsNone(ecs, "source.ip") && Bears(ecs, "user.name", text))
    || (BearsNone(ecs, "source.ip") && BearsNone(ecs, "user.name") && Bears(ecs, "host.name", text))
    || (BearsNone(ecs, "source.ip") && BearsNone(ecs, "user.name") && BearsNone(ecs, "host.name") && text == "")
  }

  lemma UsableIs(ecs: Ecs, path: string)
    ensures UsableText(Lookup(ecs, path)).None? <==> BearsNone(ecs, path)
    ensures UsableText(Lookup(ecs, path)).Some? ==> Bears(ecs, path, UsableText(Lookup(ecs, path)).value)
    ensures forall text :: Bears(ecs, path, text) ==> UsableText(Lookup(ecs, path)) == Some(text)
  {
    forall text ensures UsableText(Lookup(ecs, path)) == Some(text) <==> Bears(ecs, path, text) {
      LookupBears(ecs, path, text);
    }
    if UsableText(Lookup(ecs, path)).Some? { LookupBears(ecs, path, UsableText(Lookup(ecs, path)).value); }
  }

  /** The primary entity is the one text so described. */
  lemma PrimaryEntityIs(ecs: Ecs, text: string)
    ensures PrimaryEntity(ecs) == text <==> IsPrimary(ecs, text)
  {
    hide Lookup, UsableText, Bears;
    UsableIs(ecs, "source.ip");
    UsableIs(ecs, "user.name");
    UsableIs(ecs, "host.name");
  }

  function Material(tenant: TenantId, ruleId: int, agentId: Option<string>, primary: string): string {
    tenant + "|" + IntText(ruleId) + "|" + (if agentId.Some? then agentId.value else "") + "|" + primary
  }

  // What follows the rule in the digested text.
  function Tail(agentId: Option<string>, primary: string): string {
    (if agentId.Some? then agentId.value else "") + "|" + primary
  }

  lemma {:induction false} SplitAtSeparator(a: string, x: string, b: string, y: string)
    requires '|' !in a && '|' !in b
    requires a + "|" + x == b + "|" + y
    ensures a == b && x == y
  {
    var s, t := a + "|" + x, b + "|" + y;
    assert s[|a|] == '|' && t[|b|] == '|';
    assert |a| == |b|;
    assert a == s[..|a|] && b == t[..|b|];
    assert x == s[|a| + 1..] && y == t[|b| + 1..];
  }

  /** Two clients never share a fingerprint, nor do two rules of one client.  Beyond
      the rule only the joined text counts: an agent id or entity that holds the
      separator can be confused with a different pair. */
  lemma SameMaterialExactly(tenant: TenantId, rule: int, agent: Option<string>, primary: string,
                            tenant': TenantId, rule': int, agent': Option<string>, primary': string)
    ensures Material(tenant, rule, agent, primary) == Material(tenant', rule', agent', primary') <==>
      tenant == tenant' && rule == rule' && Tail(agent, primary) == Tail(agent', primary')
  {
    var rest, rest' := IntText(rule) + "|" + Tail(agent, primary), IntText(rule') + "|" + Tail(agent', primary');
    assert Material(tenant, rule, agent, primary) == tenant + "|" + rest;
    assert Material(tenant', rule', agent', primary') == tenant' + "|" + rest';
    if Material(tenant, rule, agent, primary) == Material(tenant', rule', agent', primary') {
      SplitAtSeparator(tenant, rest, tenant', rest');
      IntTextHasNoSeparator(rule);
      IntTextHasNoSeparator(rule');
      SplitAtSeparator(IntText(rule), Tail(agent, primary), IntText(rule'), Tail(agent', primary'));
      IntTextIsInjective(rule, rule');
    }
  }

  // Agent and entity as they stand in the digested text.
  function AgentText(agentId: Option<string>): string { if agentId.Some? then agentId.value else "" }

  /** For agent ids without the separator the fingerprint tells everything apart: it is
      shared exactly when tenant, rule, agent and entity all agree. */
  lemma SameFingerprintExactly(tenant: TenantId, rule: int, agent: Option<string>, primary: string,
      tenant': TenantId, rule': int, agent': Option<string>, primary': string)
    requires '|' !in AgentText(agent) && '|' !in AgentText(agent')
    ensures Material(tenant, rule, agent, primary) == Material(tenant', rule', agent', primary') <==>
      tenant == tenant' && rule == rule' && AgentText(agent) == AgentText(agent') && primary == primary'
  {
    SameMaterialExactly(tenant, rule, agent, primary, tenant', rule', agent', primary');
    if Tail(agent, primary) == Tail(agent', primary') {
      SplitAtSeparator(AgentText(agent), primary, AgentText(agent'), primary');
    }
  }

  // Some other agent and entity give the same text.
  ghost predicate Ambiguous(agent: string, primary: string) {
    exists agent', primary' ::
      (agent', primary') != (agent, primary) && agent' + "|" + primary' == agent + "|" + primary
  }

  /** Exactly which agent and entity can be confused with another pair: those of which
      either holds the separator. */
  lemma AmbiguousExactly(agent: string, primary: string)
    ensures Ambiguous(agent, primary) <==> '|' in agent || '|' in primary
  {
    if '|' in agent {
      var k :| 0 <= k < |agent| && agent[k] == '|';
      assert agent == agent[..k] + "|" + agent[k + 1..];
      assert agent[..k] + "|" + (agent[k + 1..] + "|" + primary) == agent + "|" + primary;
      assert agent[..k] != agent;
    } else if '|' in primary {
      var k :| 0 <= k < |primary| && primary[k] == '|';
      assert primary == primary[..k] + "|" + primary[k + 1..];
      assert (agent + "|" + primary[..k]) + "|" + primary[k + 1..] == agent + "|" + primary;
      assert |agent + "|" + primary[..k]| != |agent|;
    } else if Ambiguous(agent, primary) {
      var agent', primary' :|
        (agent', primary') != (agent, primary) && agent' + "|" + primary' == agent + "|" + primary;
      OneSeparator(agent, primary, agent', primary');
      SplitAtSeparator(agent, primary, agent', primary');
      assert false;
    }
  }

  lemma OneSeparator(a: string, x: string, b: string, y: string)
    requires '|' !in a && '|' !in x && b + "|" + y == a + "|" + x
    ensures '|' !in b
  {
    var s := a + "|" + x;
    assert s == b + "|" + y && s[|b|] == '|' && s[|a|] == '|';
    forall i | 0 <= i < |s| && i != |a| ensures s[i] != '|' {
      assert s[i] == if i < |a| then a[i] else x[i - |a| - 1];
    }
    forall i | 0 <= i < |b| ensures b[i] != '|' {
      assert s[i] == b[i];
    }
  }

  // The confusion happens: one tenant and rule, two agents, two entities, one fingerprint.
  lemma SeparatorCollides(tenant: TenantId, rule: int)
    ensures Material(tenant, rule, Some("a|b"), "c") == Material(tenant, rule, Some("a"), "b|c")
  {
    assert Tail(Some("a|b"), "c") == "a|b|c" == Tail(Some("a"), "b|c");
    SameMaterialExactly(tenant, rule, Some("a|b"), "c", tenant, rule, Some("a"), "b|c");
  }
}
