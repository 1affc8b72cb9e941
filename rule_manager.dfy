/**
 * Rule definitions and the rule-list editing operations of the rule manager.
 * Each operation builds the new list from the old one and hands it on;
 * identifiers, which the program derives from the clock and a random number,
 * are parameters here.
 */
module RuleManager {
  import opened Wrappers
  import opened LogAnalyzer

  /** A user rule. `preset` is false for rules the program leaves unmarked. */
  datatype Rule = Rule(
    id: string,
    name: string,
    description: string,
    pattern: string,
    isRegex: bool,
    category: Category,
    severity: Severity,
    enabled: bool,
    preset: bool)

  /** The editable fields of a rule, as the rule form holds them. */
  datatype RuleForm = RuleForm(
    name: string,
    description: string,
    pattern: string,
    isRegex: bool,
    category: Category,
    severity: Severity)

  /** The seven built-in rules, in declaration order; all are regular expressions and marked preset. */
  const PresetRules: seq<RuleForm> := [
    RuleForm(
      "WAN Inbound Traffic Allowed",
      "OPNsense firewall log showing inbound traffic from WAN interface that was allowed",
      "ALLOW.*,in,.*,wan,",
      true, Security, Critical),
    RuleForm(
      "Multiple Failed Login Attempts",
      "Detects failed password attempts which may indicate brute force attack",
      "Failed password|authentication failure|Invalid user",
      true, Security, Critical),
    RuleForm(
      "SSH from Public IP",
      "SSH connection to local network from a public IP address",
      "sshd.*from\\s+(?!10\\.|172\\.(1[6-9]|2[0-9]|3[01])\\.|192\\.168\\.|127\\.)",
      true, Security, Warning),
    RuleForm(
      "Kernel Panic",
      "Detects Linux kernel panic events indicating critical system failure",
      "kernel.*panic|Kernel panic",
      true, SystemFailure, Critical),
    RuleForm(
      "Service Failed to Start",
      "Systemd or init service failed to start",
      "Failed to start|systemd.*failed|service.*failed",
      true, SystemFailure, Warning),
    RuleForm(
      "Disk Space Critical",
      "Low disk space warnings",
      "No space left on device|disk.*full|filesystem.*full",
      true, SystemFailure, Critical),
    RuleForm(
      "Unifi AP Disconnected",
      "Unifi Access Point disconnection events",
      "hostapd.*disconnected|U[A-Z0-9]+.*disconnected",
      true, Network, Warning)
  ]

  /** The fields of `r` that the form edits. */
  function FormOf(r: Rule): RuleForm {
    RuleForm(r.name, r.description, r.pattern, r.isRegex, r.category, r.severity)
  }

  /** A preset with its identifier, enabled. */
  function FromPreset(p: RuleForm, id: string): Rule {
    Rule(id, p.name, p.description, p.pattern, p.isRegex, p.category, p.severity, true, true)
  }

  /** Load presets: every preset, with the identifier `presetId(k)` for the `k`-th, after the existing rules. */
  function LoadPresets(rules: seq<Rule>, presetId: nat -> string): (r: seq<Rule>)
    ensures |r| == |rules| + |PresetRules| && r[..|rules|] == rules
    ensures forall k :: 0 <= k < |PresetRules| ==>
      var added := r[|rules| + k];
      && added.id == presetId(k) && FormOf(added) == PresetRules[k]
      && added.enabled && added.preset && added.isRegex
  {
    rules + seq(|PresetRules|, k requires 0 <= k < |PresetRules| => FromPreset(PresetRules[k], presetId(k)))
  }

  /** Add a rule: the form's fields, enabled, one rule at the end. */
  function AddRule(rules: seq<Rule>, id: string, form: RuleForm): (r: seq<Rule>)
    ensures |r| == |rules| + 1 && r[..|rules|] == rules
    ensures r[|rules|].id == id && FormOf(r[|rules|]) == form && r[|rules|].enabled
  {
    rules + [Rule(id, form.name, form.description, form.pattern, form.isRegex, form.category, form.severity, true, false)]
  }

  /** `{ ...rule, ...form }` */
  function Overwrite(rule: Rule, form: RuleForm): Rule {
    rule.(name := form.name, description := form.description, pattern := form.pattern,
          isRegex := form.isRegex, category := form.category, severity := form.severity)
  }

  /**
   * Update the rule being edited: every rule whose id is the edited rule's takes
   * the form's fields and keeps its id, `enabled` and `preset`; with nothing
   * being edited the list is kept.
   */
  function UpdateRule(rules: seq<Rule>, editing: Option<Rule>, form: RuleForm): (r: seq<Rule>)
    ensures |r| == |rules|
    ensures editing.None? ==> r == rules
    ensures forall i :: 0 <= i < |rules| ==>
      if editing.Some? && rules[i].id == editing.value.id then
        && FormOf(r[i]) == form && r[i].id == rules[i].id
        && r[i].enabled == rules[i].enabled && r[i].preset == rules[i].preset
      else r[i] == rules[i]
  {
    if editing.None? then rules
    else if rules == [] then []
    else
      var rest := UpdateRule(rules[1..], editing, form);
      [if rules[0].id == editing.value.id then Overwrite(rules[0], form) else rules[0]] + rest
  }

  /** Delete: the rules with other ids, in their order. */
  function DeleteRule(rules: seq<Rule>, ruleId: string): seq<Rule> {
    if rules == [] then []
    else if rules[0].id == ruleId then DeleteRule(rules[1..], ruleId)
    else [rules[0]] + DeleteRule(rules[1..], ruleId)
  }

  /** `enabled` is flipped on rules with the given id; nothing else changes. */
  function ToggleRule(rules: seq<Rule>, ruleId: string): (r: seq<Rule>)
    ensures |r| == |rules|
    ensures forall i :: 0 <= i < |rules| ==>
      if rules[i].id == ruleId then r[i] == rules[i].(enabled := !rules[i].enabled)
      else r[i] == rules[i]
  {
    if rules == [] then []
    else
      [if rules[0].id == ruleId then rules[0].(enabled := !rules[0].enabled) else rules[0]]
      + ToggleRule(rules[1..], ruleId)
  }

  // ---------------------------------------------------------------------------
  // Properties of the operations
  // ---------------------------------------------------------------------------

  /** Toggling twice restores the list. */
  lemma ToggleTwice(rules: seq<Rule>, ruleId: string)
    ensures ToggleRule(ToggleRule(rules, ruleId), ruleId) == rules
  {
    var once := ToggleRule(rules, ruleId);
    var twice := ToggleRule(once, ruleId);
    assert forall i :: 0 <= i < |rules| ==> twice[i] == rules[i];
  }

  /** No rule with the deleted id is left. */
  lemma {:induction false} DeleteRuleRemoves(rules: seq<Rule>, ruleId: string)
    ensures forall i :: 0 <= i < |DeleteRule(rules, ruleId)| ==> DeleteRule(rules, ruleId)[i].id != ruleId
  {
    if rules != [] {
      DeleteRuleRemoves(rules[1..], ruleId);
    }
  }

  /** Every rule with another id is kept. */
  lemma {:induction false} DeleteRuleKeeps(rules: seq<Rule>, ruleId: string)
    ensures forall x :: x in rules && x.id != ruleId ==> x in DeleteRule(rules, ruleId)
  {
    if rules != [] {
      var head, tail := rules[0], rules[1..];
      DeleteRuleKeeps(tail, ruleId);
      forall x | x in rules && x.id != ruleId ensures x in DeleteRule(rules, ruleId) {
        if x != head {
          assert x in tail;
        }
      }
    }
  }

  /** Nothing is added: the result is a sub-multiset of the list. */
  lemma {:induction false} DeleteRuleSubset(rules: seq<Rule>, ruleId: string)
    ensures multiset(DeleteRule(rules, ruleId)) <= multiset(rules)
  {
    if rules != [] {
      var head, tail := rules[0], rules[1..];
      DeleteRuleSubset(tail, ruleId);
      assert rules == [head] + tail;
    }
  }

  /** Deleting works rule by rule: it distributes over concatenation, so the kept rules stay in order. */
  lemma {:induction false} DeleteConcat(a: seq<Rule>, b: seq<Rule>, ruleId: string)
    ensures DeleteRule(a + b, ruleId) == DeleteRule(a, ruleId) + DeleteRule(b, ruleId)
  {
    if a == [] {
      assert a + b == b;
    } else {
      var head, tail := a[0], a[1..];
      assert (a + b)[0] == head && (a + b)[1..] == tail + b;
      DeleteConcat(tail, b, ruleId);
      if head.id != ruleId {
        assert DeleteRule(a + b, ruleId) == [head] + DeleteRule(tail + b, ruleId);
        assert DeleteRule(a, ruleId) == [head] + DeleteRule(tail, ruleId);
      }
    }
  }

  /** On one rule, delete keeps it exactly when its id differs. */
  lemma DeleteOne(x: Rule, ruleId: string)
    ensures DeleteRule([x], ruleId) == if x.id == ruleId then [] else [x]
  {
    assert [x][1..] == [];
  }

  /** Deleting an id that no rule carries keeps the list. */
  lemma {:induction false} DeleteAbsent(rules: seq<Rule>, ruleId: string)
    requires forall i :: 0 <= i < |rules| ==> rules[i].id != ruleId
    ensures DeleteRule(rules, ruleId) == rules
  {
    if rules != [] {
      DeleteAbsent(rules[1..], ruleId);
      assert rules == [rules[0]] + rules[1..];
    }
  }
}
