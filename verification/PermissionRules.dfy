/**
 Permission-group rules (src/oauth/permission-rules.ts): validation of stored rules, matching, and
 the resolution of several matching rules by priority.
 */
module PermissionRules {
  import opened Wrappers
  import opened Seqs

  const MAX_RULES := 256
  const MAX_RULE_DEPTH := 5
  const MAX_RULE_NODES := 64
  const MAX_CHILDREN := 16
  const MAX_SET_VALUES := 64
  const MAX_VALUE_LENGTH := 2048
  const MAX_ID_LENGTH := 128

  datatype Field = Application | Api | Scope

  datatype Condition =
    | Single(field: Field, equals: bool, value: string)
    | InSet(field: Field, contained: bool, values: seq<string>)
    | Group(all: bool, conditions: seq<Condition>)

  datatype Effect = Allow | Deny

  datatype RuleInput = RuleInput(id: Option<string>, effect: Effect, condition: Condition)

  datatype Rule = Rule(effect: Effect, condition: Condition, priority: int)

  datatype Context = Context(application: string, api: string, scope: string)

  const STANDARD_SCOPES := {"openid", "profile", "email", "offline_access"}

  // ---- Validation ------------------------------------------------------------

  datatype Inspection = Inspection(nodes: nat, valid: bool, standardScope: bool)

  function LeafValues(c: Condition): seq<string>
    requires !c.Group?
  {
    if c.Single? then [c.value] else c.values
  }

  predicate LeafIsStandard(c: Condition)
    requires !c.Group?
  {
    c.field.Scope? && exists v :: v in LeafValues(c) && v in STANDARD_SCOPES
  }

  /** The result of the bounded traversal. */
  function Inspect(c: Condition, depth: nat): Inspection
    decreases c, 0
  {
    if depth > MAX_RULE_DEPTH then Inspection(1, false, false)
    else if !c.Group? then Inspection(1, true, LeafIsStandard(c))
    else
      var r := InspectAll(c.conditions, depth + 1);
      Inspection(1 + r.nodes, c.conditions != [] && r.valid && 1 + r.nodes <= MAX_RULE_NODES, r.standardScope)
  }

  function InspectAll(cs: seq<Condition>, depth: nat): Inspection
    decreases cs, 0
  {
    if cs == [] then Inspection(0, true, false)
    else
      var rest, last := InspectAll(cs[..|cs| - 1], depth), Inspect(cs[|cs| - 1], depth);
      Inspection(rest.nodes + last.nodes, rest.valid && last.valid, rest.standardScope || last.standardScope)
  }

  method InspectCondition(c: Condition, depth: nat) returns (r: Inspection)
    ensures r == Inspect(c, depth)
    decreases c
  {
    if depth > MAX_RULE_DEPTH {
      return Inspection(1, false, false);
    }
    if !c.Group? {
      return Inspection(1, true, c.field.Scope? && exists v :: v in LeafValues(c) && v in STANDARD_SCOPES);
    }
    var nodes, valid, standardScope, i := 1, |c.conditions| > 0, false, 0;
    while i < |c.conditions|
      invariant 0 <= i <= |c.conditions|
      invariant var done := InspectAll(c.conditions[..i], depth + 1);
                nodes == 1 + done.nodes && standardScope == done.standardScope
                && valid == (c.conditions != [] && done.valid)
    {
      assert c.conditions[..i + 1][..i] == c.conditions[..i];
      var inspected := InspectCondition(c.conditions[i], depth + 1);
      nodes := nodes + inspected.nodes;
      valid := valid && inspected.valid;
      standardScope := standardScope || inspected.standardScope;
      i := i + 1;
    }
    assert c.conditions[..i] == c.conditions;
    return Inspection(nodes, valid && nodes <= MAX_RULE_NODES, standardScope);
  }

  /** The true height, size and scope leaves of a condition. */
  function Depth(c: Condition): nat
    decreases c, 0
  {
    if c.Group? then 1 + MaxDepth(c.conditions) else 1
  }

  function MaxDepth(cs: seq<Condition>): nat
    decreases cs, 0
  {
    if cs == [] then 0
    else
      var rest, last := MaxDepth(cs[..|cs| - 1]), Depth(cs[|cs| - 1]);
      if rest < last then last else rest
  }

  function NodeCount(c: Condition): nat
    decreases c, 0
  {
    if c.Group? then 1 + NodeSum(c.conditions) else 1
  }

  function NodeSum(cs: seq<Condition>): nat
    decreases cs, 0
  {
    if cs == [] then 0 else NodeSum(cs[..|cs| - 1]) + NodeCount(cs[|cs| - 1])
  }

  predicate NamesStandardScope(c: Condition) {
    if c.Group? then exists child :: child in c.conditions && NamesStandardScope(child)
    else LeafIsStandard(c)
  }

  predicate GroupsNonEmpty(c: Condition) {
    c.Group? ==> c.conditions != [] && forall child :: child in c.conditions ==> GroupsNonEmpty(child)
  }

  /**
   The traversal, which stops at depth 6 and counts what it cuts off as one node, decides the true
   bounds: it reports "valid" exactly when no group is empty, the height is at most 5 (counted from
   `depth`) and there are at most 64 nodes; then it has counted and looked at every node.
   */
  lemma {:induction false} InspectMeaning(c: Condition, depth: nat)
    requires 1 <= depth <= MAX_RULE_DEPTH + 1
    ensures var r := Inspect(c, depth);
            && (depth - 1 + Depth(c) <= MAX_RULE_DEPTH ==>
                  r.nodes == NodeCount(c) && (r.standardScope <==> NamesStandardScope(c)))
            && (r.valid <==> depth - 1 + Depth(c) <= MAX_RULE_DEPTH && GroupsNonEmpty(c)
                             && NodeCount(c) <= MAX_RULE_NODES)
    decreases c, 0
  {
    if c.Group? && depth <= MAX_RULE_DEPTH {
      InspectAllMeaning(c.conditions, depth + 1);
    }
  }

  lemma {:induction false} InspectAllMeaning(cs: seq<Condition>, depth: nat)
    requires 1 <= depth <= MAX_RULE_DEPTH + 1
    ensures var r := InspectAll(cs, depth);
            && (depth - 1 + MaxDepth(cs) <= MAX_RULE_DEPTH ==>
                  && r.nodes == NodeSum(cs)
                  && (r.standardScope <==> exists c :: c in cs && NamesStandardScope(c)))
            && (r.valid && NodeSum(cs) <= MAX_RULE_NODES <==>
                  depth - 1 + MaxDepth(cs) <= MAX_RULE_DEPTH && (forall c :: c in cs ==> GroupsNonEmpty(c))
                  && NodeSum(cs) <= MAX_RULE_NODES)
            && (r.valid ==> depth - 1 + MaxDepth(cs) <= MAX_RULE_DEPTH)
    decreases cs, 0
  {
    if cs != [] {
      var front, last := cs[..|cs| - 1], cs[|cs| - 1];
      InspectAllMeaning(front, depth);
      InspectMeaning(last, depth);
      assert forall c :: c in cs <==> c in front || c == last;
    }
  }

  datatype Verdict = Ok | InvalidRule | TooManyRules | DuplicateRuleId | StandardScope

  /** What the input schema demands of a condition. */
  predicate SchemaCondition(c: Condition) {
    match c
    case Single(_, _, value) => 1 <= |value| <= MAX_VALUE_LENGTH
    case InSet(_, _, values) =>
      && 1 <= |values| <= MAX_SET_VALUES
      && (forall i, j :: 0 <= i < j < |values| ==> values[i] != values[j])
      && (forall v :: v in values ==> 1 <= |v| <= MAX_VALUE_LENGTH)
    case Group(_, conditions) =>
      1 <= |conditions| <= MAX_CHILDREN && forall child :: child in conditions ==> SchemaCondition(child)
  }

  predicate SchemaRule(rule: RuleInput) {
    SchemaCondition(rule.condition) && (rule.id.Some? ==> 1 <= |rule.id.value| <= MAX_ID_LENGTH)
  }

  predicate DistinctIds(rules: seq<RuleInput>) {
    forall i, j :: 0 <= i < j < |rules| && rules[i].id.Some? ==> rules[i].id != rules[j].id
  }

  predicate WithinBounds(rule: RuleInput) {
    Depth(rule.condition) <= 5 && NodeCount(rule.condition) <= 64
  }

  /** A rule within the true bounds that names no standard scope. */
  predicate RuleAcceptable(rule: RuleInput) {
    WithinBounds(rule) && !NamesStandardScope(rule.condition)
  }

  /** Untyped input: something else than an array, or items of which `None` has the wrong shape. */
  datatype RawInput = NotAnArray | Items(items: seq<Option<RuleInput>>)

  predicate InSchema(raw: RawInput) {
    && raw.Items? && |raw.items| <= MAX_RULES
    && forall i :: 0 <= i < |raw.items| ==> raw.items[i].Some? && SchemaRule(raw.items[i].value)
  }

  function Parsed(raw: RawInput): (rules: seq<RuleInput>)
    requires InSchema(raw)
    ensures forall r :: r in rules ==> SchemaRule(r)
  {
    seq(|raw.items|, i requires 0 <= i < |raw.items| => raw.items[i].value)
  }

  /** The first rule that is not acceptable. */
  predicate FirstRefused(rules: seq<RuleInput>, i: nat) {
    i < |rules| && !RuleAcceptable(rules[i]) && forall k :: 0 <= k < i ==> RuleAcceptable(rules[k])
  }

  lemma {:induction false} SchemaGroupsNonEmpty(c: Condition)
    requires SchemaCondition(c)
    ensures GroupsNonEmpty(c)
  {
    if c.Group? {
      forall child | child in c.conditions ensures GroupsNonEmpty(child) {
        SchemaGroupsNonEmpty(child);
      }
    }
  }

  /**
   Rules are accepted exactly when the schema holds, the given ids are distinct, and every
   condition has true depth at most 5, at most 64 nodes and no scope leaf naming a standard scope.
   Otherwise the issue is the earliest of: too many, outside the schema, repeated ids, and what is
   wrong with the first refused rule.
   */
  method ValidatePermissionGroupRules(raw: RawInput) returns (verdict: Verdict)
    ensures verdict.Ok? <==>
              InSchema(raw) && DistinctIds(Parsed(raw)) && forall r :: r in Parsed(raw) ==> RuleAcceptable(r)
    ensures verdict.TooManyRules? <==> raw.Items? && |raw.items| > 256
    ensures verdict.DuplicateRuleId? <==> InSchema(raw) && !DistinctIds(Parsed(raw))
    ensures verdict.StandardScope? <==>
              && InSchema(raw) && DistinctIds(Parsed(raw))
              && exists i: nat :: FirstRefused(Parsed(raw), i) && WithinBounds(Parsed(raw)[i])
  {
    if !InSchema(raw) {
      return if raw.Items? && |raw.items| > MAX_RULES then TooManyRules else InvalidRule;
    }
    if !DistinctIds(Parsed(raw)) {
      return DuplicateRuleId;
    }
    verdict := InspectRules(Parsed(raw));
  }

  /** The loop over schema-valid rules: the first refused one decides. */
  method InspectRules(rules: seq<RuleInput>) returns (verdict: Verdict)
    requires forall r :: r in rules ==> SchemaRule(r)
    ensures verdict.Ok? <==> forall r :: r in rules ==> RuleAcceptable(r)
    ensures verdict.StandardScope? <==> exists i: nat :: FirstRefused(rules, i) && WithinBounds(rules[i])
    ensures verdict.Ok? || verdict.StandardScope? || verdict.InvalidRule?
  {
    var i := 0;
    while i < |rules|
      invariant 0 <= i <= |rules|
      invariant forall k :: 0 <= k < i ==> RuleAcceptable(rules[k])
    {
      var c := rules[i].condition;
      assert SchemaRule(rules[i]);
      InspectionDecides(rules[i]);
      var inspected := InspectCondition(c, 1);
      if !inspected.valid || inspected.nodes > MAX_RULE_NODES {
        assert !WithinBounds(rules[i]) && !RuleAcceptable(rules[i]);
        assert forall k: nat :: FirstRefused(rules, k) ==> k == i;
        return InvalidRule;
      }
      if inspected.standardScope {
        assert FirstRefused(rules, i);
        return StandardScope;
      }
      i := i + 1;
    }
    return Ok;
  }

  /** For a schema-valid rule the inspection tells the true bounds and standard scopes apart. */
  lemma InspectionDecides(rule: RuleInput)
    requires SchemaRule(rule)
    ensures var r := Inspect(rule.condition, 1);
            && (r.valid && r.nodes <= MAX_RULE_NODES <==> WithinBounds(rule))
            && (WithinBounds(rule) ==> (r.standardScope <==> NamesStandardScope(rule.condition)))
  {
    SchemaGroupsNonEmpty(rule.condition);
    InspectMeaning(rule.condition, 1);
  }

  // ---- Matching --------------------------------------------------------------

  function Actual(field: Field, context: Context): string {
    match field
    case Application => context.application
    case Api => context.api
    case Scope => context.scope
  }

  predicate Matches(c: Condition, context: Context) {
    match c
    case Single(field, equals, value) => (Actual(field, context) == value) == equals
    case InSet(field, contained, values) => (Actual(field, context) in values) == contained
    case Group(all, conditions) =>
      if all then forall child :: child in conditions ==> Matches(child, context)
      else exists child :: child in conditions && Matches(child, context)
  }

  predicate UsesScope(c: Condition) {
    if c.Group? then exists child :: child in c.conditions && UsesScope(child) else c.field.Scope?
  }

  /** A condition without scope leaves cannot tell scopes apart. */
  lemma {:induction false} MatchIgnoresScope(c: Condition, context: Context, scope: string)
    requires !UsesScope(c)
    ensures Matches(c, context) == Matches(c, context.(scope := scope))
  {
    if c.Group? {
      forall child | child in c.conditions
        ensures Matches(child, context) == Matches(child, context.(scope := scope))
      {
        MatchIgnoresScope(child, context, scope);
      }
    }
  }

  // ---- Resolution ------------------------------------------------------------

  datatype Decision = Allowed(priority: int) | NoMatch | Denied(priority: int)

  predicate Applies(rule: Rule, context: Context, scopeStage: bool) {
    UsesScope(rule.condition) == scopeStage && Matches(rule.condition, context)
  }

  function Matching(rules: seq<Rule>, context: Context, scopeStage: bool): (r: seq<Rule>)
    ensures forall x :: x in r <==> x in rules && Applies(x, context, scopeStage)
  {
    Filter(rule => Applies(rule, context, scopeStage), rules)
  }

  function MinPriority(rules: seq<Rule>): (p: int)
    requires rules != []
    ensures exists r :: r in rules && r.priority == p
    ensures forall r :: r in rules ==> p <= r.priority
  {
    if |rules| == 1 then rules[0].priority
    else
      var p := MinPriority(rules[1..]);
      if rules[0].priority < p then rules[0].priority else p
  }

  function Resolve(rules: seq<Rule>, context: Context, scopeStage: bool): Decision {
    var matching := Matching(rules, context, scopeStage);
    if matching == [] then NoMatch
    else
      var priority := MinPriority(matching);
      var winning := Filter((r: Rule) => r.priority == priority, matching);
      if exists r :: r in winning && r.effect.Deny? then Denied(priority) else Allowed(priority)
  }

  /** The order in which rules are meant to be consulted: smaller priority first, deny before allow. */
  predicate NotAfter(a: Rule, b: Rule) {
    a.priority < b.priority || (a.priority == b.priority && (a.effect.Deny? || b.effect.Allow?))
  }

  /** The decision is that of a first applicable rule in the order (priority, deny before allow). */
  ghost predicate DecidedByFirst(rules: seq<Rule>, context: Context, scopeStage: bool, d: Decision) {
    match d
    case NoMatch => forall r :: r in rules ==> !Applies(r, context, scopeStage)
    case Allowed(p) => exists r :: IsFirst(r, rules, context, scopeStage) && r.effect.Allow? && r.priority == p
    case Denied(p) => exists r :: IsFirst(r, rules, context, scopeStage) && r.effect.Deny? && r.priority == p
  }

  ghost predicate IsFirst(r: Rule, rules: seq<Rule>, context: Context, scopeStage: bool) {
    && r in rules && Applies(r, context, scopeStage)
    && forall x :: x in rules && Applies(x, context, scopeStage) ==> NotAfter(r, x)
  }

  /** Two rules that are both first agree on priority and effect. */
  lemma FirstsAgree(rules: seq<Rule>, context: Context, scopeStage: bool, d: Decision, e: Decision)
    requires DecidedByFirst(rules, context, scopeStage, d) && DecidedByFirst(rules, context, scopeStage, e)
    ensures d == e
  {
  }

  lemma ResolvedByFirst(rules: seq<Rule>, context: Context, scopeStage: bool)
    ensures DecidedByFirst(rules, context, scopeStage, Resolve(rules, context, scopeStage))
  {
    var matching := Matching(rules, context, scopeStage);
    var decision := Resolve(rules, context, scopeStage);
    if matching == [] {
      assert forall r :: r in rules ==> r !in matching;
    } else {
      var first :| first in matching && first.priority == decision.priority
                   && (decision.Denied? ==> first.effect.Deny?);
      assert IsFirst(first, rules, context, scopeStage);
    }
  }

  lemma ResolveIsFirstMatch(rules: seq<Rule>, context: Context, scopeStage: bool, d: Decision)
    ensures DecidedByFirst(rules, context, scopeStage, d) <==> d == Resolve(rules, context, scopeStage)
  {
    ResolvedByFirst(rules, context, scopeStage);
    if DecidedByFirst(rules, context, scopeStage, d) {
      FirstsAgree(rules, context, scopeStage, d, Resolve(rules, context, scopeStage));
    }
  }

  lemma FirstIgnoresOrder(rules: seq<Rule>, others: seq<Rule>, context: Context, scopeStage: bool, d: Decision)
    requires (forall r :: r in rules <==> r in others) && DecidedByFirst(rules, context, scopeStage, d)
    ensures DecidedByFirst(others, context, scopeStage, d)
  {
    if !d.NoMatch? {
      var r :| IsFirst(r, rules, context, scopeStage) && r.priority == d.priority
               && (d.Allowed? <==> r.effect.Allow?);
      assert IsFirst(r, others, context, scopeStage);
    }
  }

  /** Only which rules are present matters, not their order or repetition. */
  lemma ResolveIgnoresOrder(rules: seq<Rule>, others: seq<Rule>, context: Context, scopeStage: bool)
    requires forall r :: r in rules <==> r in others
    ensures Resolve(rules, context, scopeStage) == Resolve(others, context, scopeStage)
  {
    var d := Resolve(rules, context, scopeStage);
    ResolvedByFirst(rules, context, scopeStage);
    FirstIgnoresOrder(rules, others, context, scopeStage, d);
    ResolveIsFirstMatch(others, context, scopeStage, d);
  }

  /** The decision after a deny rule is added, from the decision before. */
  function WithDeny(deny: Rule, context: Context, scopeStage: bool, before: Decision): Decision {
    if Applies(deny, context, scopeStage) && (before.NoMatch? || deny.priority <= before.priority)
    then Denied(deny.priority) else before
  }

  lemma FirstWithDeny(rules: seq<Rule>, deny: Rule, context: Context, scopeStage: bool, before: Decision)
    requires deny.effect.Deny? && DecidedByFirst(rules, context, scopeStage, before)
    ensures DecidedByFirst(rules + [deny], context, scopeStage, WithDeny(deny, context, scopeStage, before))
  {
    var all := rules + [deny];
    assert forall r :: r in all <==> r in rules || r == deny;
    if Applies(deny, context, scopeStage) && (before.NoMatch? || deny.priority <= before.priority) {
      assert IsFirst(deny, all, context, scopeStage);
    } else if !before.NoMatch? {
      var r :| IsFirst(r, rules, context, scopeStage) && r.priority == before.priority
               && (before.Allowed? <==> r.effect.Allow?);
      assert IsFirst(r, all, context, scopeStage);
    }
  }

  /**
   Adding a deny rule changes the decision exactly when it applies and nothing of smaller priority
   does; then it is denied. In particular it never turns a refusal into an allow.
   */
  lemma AddingDenyIsExact(rules: seq<Rule>, deny: Rule, context: Context, scopeStage: bool)
    requires deny.effect.Deny?
    ensures var before := Resolve(rules, context, scopeStage);
            Resolve(rules + [deny], context, scopeStage) ==
              if Applies(deny, context, scopeStage) && (before.NoMatch? || deny.priority <= before.priority)
              then Denied(deny.priority) else before
  {
    var before := Resolve(rules, context, scopeStage);
    ResolvedByFirst(rules, context, scopeStage);
    FirstWithDeny(rules, deny, context, scopeStage, before);
    ResolveIsFirstMatch(rules + [deny], context, scopeStage, WithDeny(deny, context, scopeStage, before));
  }
}
