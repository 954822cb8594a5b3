/**
 What conditions, rules and decisions mean, by laws: how groups and negations combine, that a leaf
 reads only the component it names, and when each answer about a token is given.
 */
module PermissionMeaning {
  import opened PermissionRules
  import opened TokenPolicy

  // ---- Conditions ----------------------------------------------------------------

  /** A leaf compares the component it names, and no other. */
  lemma LeavesCompare(context: Context, value: string, values: seq<string>)
    ensures Matches(Single(Application, true, value), context) <==> context.application == value
    ensures Matches(Single(Api, true, value), context) <==> context.api == value
    ensures Matches(Single(Scope, true, value), context) <==> context.scope == value
    ensures Matches(InSet(Application, true, values), context) <==> context.application in values
    ensures Matches(InSet(Api, true, values), context) <==> context.api in values
    ensures Matches(InSet(Scope, true, values), context) <==> context.scope in values
  {
  }

  lemma NegationsNegate(field: Field, value: string, values: seq<string>, context: Context)
    ensures Matches(Single(field, false, value), context) <==> !Matches(Single(field, true, value), context)
    ensures Matches(InSet(field, false, values), context) <==> !Matches(InSet(field, true, values), context)
  {
  }

  /** A group of one is its child; an empty "and" holds and an empty "or" does not. */
  lemma SmallGroups(c: Condition, context: Context)
    ensures Matches(Group(true, []), context) && !Matches(Group(false, []), context)
    ensures Matches(Group(true, [c]), context) <==> Matches(c, context)
    ensures Matches(Group(false, [c]), context) <==> Matches(c, context)
  {
    assert c in [c];
  }

  /** "and" over two lists is "and" of the lists, and "or" is "or". */
  lemma GroupsCombine(a: seq<Condition>, b: seq<Condition>, context: Context)
    ensures Matches(Group(true, a + b), context) <==> Matches(Group(true, a), context) && Matches(Group(true, b), context)
    ensures Matches(Group(false, a + b), context) <==> Matches(Group(false, a), context) || Matches(Group(false, b), context)
  {
    assert forall c :: c in a + b <==> c in a || c in b;
  }

  // ---- Leaves ----------------------------------------------------------------------

  /** `listPermissionRuleMatches`: the leaves from left to right. */
  function Leaves(c: Condition): seq<Condition>
    decreases c, 0
  {
    if c.Group? then AllLeaves(c.conditions) else [c]
  }

  function AllLeaves(cs: seq<Condition>): seq<Condition>
    decreases cs, 0
  {
    if cs == [] then [] else Leaves(cs[0]) + AllLeaves(cs[1..])
  }

  lemma {:induction false} LeafOfSome(cs: seq<Condition>, leaf: Condition)
    ensures leaf in AllLeaves(cs) <==> exists c :: c in cs && leaf in Leaves(c)
  {
    if cs != [] {
      LeafOfSome(cs[1..], leaf);
      if leaf in Leaves(cs[0]) {
        assert cs[0] in cs;
      }
      if leaf in AllLeaves(cs[1..]) {
        var c :| c in cs[1..] && leaf in Leaves(c);
        assert c in cs;
      }
      if c :| c in cs && leaf in Leaves(c) {
        assert c == cs[0] || c in cs[1..];
      }
    }
  }

  predicate ScopeLeaf(leaf: Condition) {
    !leaf.Group? && leaf.field.Scope?
  }

  /** A condition uses the scope exactly when one of its leaves names it. */
  lemma {:induction false} UsesScopeIsExact(c: Condition)
    ensures UsesScope(c) <==> exists leaf :: leaf in Leaves(c) && ScopeLeaf(leaf)
    decreases c
  {
    if c.Group? {
      forall child | child in c.conditions
        ensures UsesScope(child) <==> exists leaf :: leaf in Leaves(child) && ScopeLeaf(leaf)
      {
        UsesScopeIsExact(child);
      }
      forall leaf ensures leaf in Leaves(c) <==> exists child :: child in c.conditions && leaf in Leaves(child) {
        LeafOfSome(c.conditions, leaf);
      }
    } else {
      assert c in Leaves(c);
    }
  }

  predicate StandardLeaf(leaf: Condition) {
    && ScopeLeaf(leaf)
    && exists v :: v in LeafValues(leaf) && (v == "openid" || v == "profile" || v == "email" || v == "offline_access")
  }

  /** A condition names a standard scope exactly when one of its leaves does. */
  lemma {:induction false} StandardScopeIsExact(c: Condition)
    ensures NamesStandardScope(c) <==> exists leaf :: leaf in Leaves(c) && StandardLeaf(leaf)
    decreases c
  {
    if c.Group? {
      forall child | child in c.conditions
        ensures NamesStandardScope(child) <==> exists leaf :: leaf in Leaves(child) && StandardLeaf(leaf)
      {
        StandardScopeIsExact(child);
      }
      forall leaf ensures leaf in Leaves(c) <==> exists child :: child in c.conditions && leaf in Leaves(child) {
        LeafOfSome(c.conditions, leaf);
      }
    } else {
      assert c in Leaves(c);
    }
  }

  /** A rule takes part in the stage that its leaves put it in, and there exactly when it matches. */
  lemma AppliesIsExact(rule: Rule, context: Context, scopeStage: bool)
    ensures Applies(rule, context, scopeStage) <==>
            && Matches(rule.condition, context)
            && (scopeStage <==> exists leaf :: leaf in Leaves(rule.condition) && ScopeLeaf(leaf))
  {
    UsesScopeIsExact(rule.condition);
  }

  // ---- Decisions about a token -------------------------------------------------------

  predicate Standard(scope: string) {
    scope == "openid" || scope == "profile" || scope == "email" || scope == "offline_access"
  }

  /** What the rules say about one scope asked for. */
  function ScopeDecision(policy: Policy, request: Request, scope: string): Decision {
    Resolve(policy.rules, Context(request.clientId, request.resourceUri, scope), true)
  }

  function BaseDecision(policy: Policy, request: Request): Decision {
    Resolve(policy.rules, Context(request.clientId, request.resourceUri, ""), false)
  }

  /** No admin scope is asked for by someone outside the admin group. */
  predicate AdminAllowed(policy: Policy, request: Request) {
    "admin.read" in request.scopes || "admin.write" in request.scopes ==> policy.adminMember
  }

  predicate ScopeRefused(policy: Policy, request: Request, scope: string) {
    !Standard(scope) && !ScopeDecision(policy, request, scope).Allowed?
  }

  /** The first of the scopes that is refused. */
  predicate FirstScopeRefused(policy: Policy, request: Request, scopes: seq<string>, i: nat) {
    && i < |scopes| && ScopeRefused(policy, request, scopes[i])
    && forall j :: 0 <= j < i ==> !ScopeRefused(policy, request, scopes[j])
  }

  predicate SameContext(request: Request, context: Context) {
    context.application == request.clientId && context.api == request.resourceUri
  }

  /** The first answer that is not a grant, for any way of answering one scope. */
  function FirstRefusal(answer: string -> Access, scopes: seq<string>): Access {
    if scopes == [] then Granted
    else if answer(scopes[0]).Granted? then FirstRefusal(answer, scopes[1..])
    else answer(scopes[0])
  }

  lemma {:induction false} RefusalAppend(answer: string -> Access, a: seq<string>, b: seq<string>)
    ensures FirstRefusal(answer, a + b) ==
            if FirstRefusal(answer, a).Granted? then FirstRefusal(answer, b) else FirstRefusal(answer, a)
  {
    if a == [] {
      assert a + b == b;
    } else {
      RefusalAppend(answer, a[1..], b);
      assert (a + b)[1..] == a[1..] + b;
    }
  }

  predicate FirstWithout(answer: string -> Access, scopes: seq<string>, i: nat) {
    i < |scopes| && !answer(scopes[i]).Granted? && forall j :: 0 <= j < i ==> answer(scopes[j]).Granted?
  }

  lemma {:induction false} RefusalIsFirst(answer: string -> Access, scopes: seq<string>)
    ensures var access := FirstRefusal(answer, scopes);
            if access.Granted? then forall i :: 0 <= i < |scopes| ==> answer(scopes[i]).Granted?
            else exists i: nat :: FirstWithout(answer, scopes, i) && access == answer(scopes[i])
  {
    if scopes != [] {
      var rest := scopes[1..];
      RefusalIsFirst(answer, rest);
      if !answer(scopes[0]).Granted? {
        assert FirstWithout(answer, scopes, 0);
      } else if !FirstRefusal(answer, rest).Granted? {
        var i: nat :| FirstWithout(answer, rest, i) && FirstRefusal(answer, rest) == answer(rest[i]);
        assert FirstWithout(answer, scopes, i + 1);
      }
    }
  }

  function AnswerOf(d: Decision): Access {
    match d
    case Allowed(_) => Granted
    case Denied(_) => ScopeDenied
    case NoMatch => ScopeNotAllowed
  }

  /** The answer about one scope. */
  function AnswerTo(policy: Policy, application: string, api: string): string -> Access {
    scope => if Standard(scope) then Granted
             else AnswerOf(Resolve(policy.rules, Context(application, api, scope), true))
  }

  lemma StandardIs(scope: string)
    ensures scope in STANDARD_SCOPES <==> Standard(scope)
  {
  }

  lemma CheckStep(policy: Policy, context: Context, scopes: seq<string>)
    requires scopes != []
    ensures var first := AnswerTo(policy, context.application, context.api)(scopes[0]);
            CheckScopes(policy, context, scopes) ==
            if first.Granted? then CheckScopes(policy, context, scopes[1..]) else first
  {
    StandardIs(scopes[0]);
    var one := Context(context.application, context.api, scopes[0]);
    assert context.(scope := scopes[0]) == one;
    var d := Resolve(policy.rules, one, true);
    if !Standard(scopes[0]) {
      assert AnswerTo(policy, context.application, context.api)(scopes[0]) == AnswerOf(d);
    }
  }

  lemma {:induction false} CheckIsRefusal(policy: Policy, context: Context, scopes: seq<string>)
    ensures CheckScopes(policy, context, scopes)
         == FirstRefusal(AnswerTo(policy, context.application, context.api), scopes)
  {
    if scopes != [] {
      CheckIsRefusal(policy, context, scopes[1..]);
      CheckStep(policy, context, scopes);
    }
  }

  /** Repeated scopes change nothing. */
  lemma {:induction false} CheckUnique(policy: Policy, context: Context, scopes: seq<string>)
    ensures CheckScopes(policy, context, Unique(scopes)) == CheckScopes(policy, context, scopes)
  {
    if scopes != [] {
      var front, last := scopes[..|scopes| - 1], scopes[|scopes| - 1];
      assert scopes == front + [last];
      CheckUnique(policy, context, front);
      var answer := AnswerTo(policy, context.application, context.api);
      CheckIsRefusal(policy, context, front);
      CheckIsRefusal(policy, context, scopes);
      CheckIsRefusal(policy, context, Unique(front));
      CheckIsRefusal(policy, context, Unique(scopes));
      RefusalAppend(answer, front, [last]);
      RefusalAppend(answer, Unique(front), [last]);
      RefusalIsFirst(answer, Unique(front));
    }
  }

  lemma {:induction false} CheckIsFirstRefused(policy: Policy, request: Request, context: Context, scopes: seq<string>)
    requires SameContext(request, context)
    ensures var access := CheckScopes(policy, context, scopes);
            if access.Granted? then forall s :: s in scopes ==> !ScopeRefused(policy, request, s)
            else exists i: nat ::
              && FirstScopeRefused(policy, request, scopes, i)
              && access == if ScopeDecision(policy, request, scopes[i]).Denied? then ScopeDenied else ScopeNotAllowed
  {
    var answer := AnswerTo(policy, request.clientId, request.resourceUri);
    CheckIsRefusal(policy, context, scopes);
    RefusalIsFirst(answer, scopes);
    assert forall s :: answer(s).Granted? <==> !ScopeRefused(policy, request, s);
    if !FirstRefusal(answer, scopes).Granted? {
      var i: nat :| FirstWithout(answer, scopes, i) && FirstRefusal(answer, scopes) == answer(scopes[i]);
      assert FirstScopeRefused(policy, request, scopes, i);
    }
  }

  /** The answer before any custom scope is looked at. */
  lemma EarlyAnswersAreExact(policy: Policy, request: Request)
    ensures Evaluate(policy, request).InvalidPolicy? <==> !policy.valid
    ensures Evaluate(policy, request).ApplicationResource? <==> policy.valid && !BaseDecision(policy, request).Allowed?
    ensures Evaluate(policy, request).AdminScope? <==>
            policy.valid && BaseDecision(policy, request).Allowed? && !AdminAllowed(policy, request)
  {
    var scopes := Unique(request.scopes);
    var context := Context(request.clientId, request.resourceUri, if scopes == [] then "" else scopes[0]);
    BaseIgnoresScope(policy.rules, context, "");
    ChecksAnswerScopes(policy, context, scopes);
    assert (exists s :: s in scopes && s in ADMIN_SCOPES) <==> "admin.read" in scopes || "admin.write" in scopes;
  }

  lemma {:induction false} ChecksAnswerScopes(policy: Policy, context: Context, scopes: seq<string>)
    ensures var access := CheckScopes(policy, context, scopes);
            access.Granted? || access.ScopeDenied? || access.ScopeNotAllowed?
  {
    if scopes != [] {
      ChecksAnswerScopes(policy, context, scopes[1..]);
    }
  }

  /** Once past those, every custom scope is looked at in the order it was asked for, and the first refused one decides. */
  lemma ScopeAnswersAreExact(policy: Policy, request: Request)
    requires policy.valid && BaseDecision(policy, request).Allowed? && AdminAllowed(policy, request)
    ensures var access := Evaluate(policy, request);
            if access.Granted? then forall s :: s in request.scopes ==> !ScopeRefused(policy, request, s)
            else exists i: nat ::
              && FirstScopeRefused(policy, request, request.scopes, i)
              && access == if ScopeDecision(policy, request, request.scopes[i]).Denied? then ScopeDenied
                           else ScopeNotAllowed
  {
    var scopes := Unique(request.scopes);
    var context := Context(request.clientId, request.resourceUri, if scopes == [] then "" else scopes[0]);
    EarlyAnswersAreExact(policy, request);
    CheckUnique(policy, context, request.scopes);
    CheckIsFirstRefused(policy, request, context, request.scopes);
  }

  // ---- Validation ------------------------------------------------------------------

  predicate ValueText(v: string) { 1 <= |v| <= 2048 }

  /** What the input schema lets through, kind by kind. */
  lemma SchemaIsExact(field: Field, positive: bool, value: string, values: seq<string>, conditions: seq<Condition>)
    ensures SchemaCondition(Single(field, positive, value)) <==> ValueText(value)
    ensures SchemaCondition(InSet(field, positive, values)) <==>
              && 1 <= |values| <= 64 && (forall v :: v in values ==> ValueText(v))
              && |set v | v in values| == |values|
    ensures SchemaCondition(Group(positive, conditions)) <==>
              1 <= |conditions| <= 16 && forall c :: c in conditions ==> SchemaCondition(c)
  {
    DistinctIsCount(values);
  }

  lemma DistinctSnoc(front: seq<string>, last: string)
    ensures var values := front + [last];
            (forall i, j :: 0 <= i < j < |values| ==> values[i] != values[j])
            <==> last !in front && forall i, j :: 0 <= i < j < |front| ==> front[i] != front[j]
  {
    var values := front + [last];
    assert forall i :: 0 <= i < |front| ==> values[i] == front[i];
    if last in front {
      var i :| 0 <= i < |front| && front[i] == last;
      assert values[i] == values[|front|];
    }
  }

  lemma CountSnoc(front: seq<string>, last: string)
    ensures |set v | v in front + [last]| == |set v | v in front| + (if last in front then 0 else 1)
  {
    var fewer, all := set v | v in front, set v | v in front + [last];
    assert all == fewer + {last};
    if last in front {
      assert all == fewer;
    }
  }

  lemma {:induction false} DistinctIsCount(values: seq<string>)
    ensures |set v | v in values| <= |values|
    ensures |set v | v in values| == |values| <==> forall i, j :: 0 <= i < j < |values| ==> values[i] != values[j]
  {
    if values != [] {
      var front, last := values[..|values| - 1], values[|values| - 1];
      DistinctIsCount(front);
      CountSnoc(front, last);
      DistinctSnoc(front, last);
      assert values == front + [last];
    }
  }

  /** What the input schema demands of the whole list, and what makes ids distinct. */
  lemma InputIsExact(raw: RawInput)
    ensures InSchema(raw) <==>
              && raw.Items? && |raw.items| <= 256
              && forall i :: 0 <= i < |raw.items| ==>
                   && raw.items[i].Some? && SchemaCondition(raw.items[i].value.condition)
                   && (raw.items[i].value.id.None? || 1 <= |raw.items[i].value.id.value| <= 128)
    ensures InSchema(raw) ==>
              (DistinctIds(Parsed(raw)) <==>
                 forall i, j :: 0 <= i < j < |raw.items| && raw.items[i].value.id.Some? && raw.items[j].value.id.Some? ==>
                   raw.items[i].value.id.value != raw.items[j].value.id.value)
  {
    if InSchema(raw) {
      forall i | 0 <= i < |raw.items| ensures raw.items[i].Some? && SchemaRule(raw.items[i].value) {
      }
      assert forall i :: 0 <= i < |raw.items| ==> Parsed(raw)[i] == raw.items[i].value;
    }
  }
}
