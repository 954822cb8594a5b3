/**
 The access decision for a user-backed token (src/oauth/user-token-policy.ts): a base decision on
 application and API, then every custom scope on its own.
 */
module TokenPolicy {
  import opened PermissionRules

  datatype Policy = Policy(valid: bool, adminMember: bool, rules: seq<Rule>)

  datatype Access = Granted | ApplicationResource | AdminScope | ScopeDenied | ScopeNotAllowed | InvalidPolicy

  datatype Request = Request(clientId: string, resourceUri: string, scopes: seq<string>)

  const ADMIN_SCOPES := {"admin.read", "admin.write"}

  /** `[...new Set(scopes)]`: first occurrences, in order. */
  function Unique(scopes: seq<string>): (r: seq<string>)
    ensures forall s :: s in r <==> s in scopes
  {
    if scopes == [] then []
    else
      var front, last := Unique(scopes[..|scopes| - 1]), scopes[|scopes| - 1];
      if last in front then front else front + [last]
  }

  /** The first custom scope that no rule allows decides; without one, access is granted. */
  function CheckScopes(policy: Policy, context: Context, scopes: seq<string>): Access {
    if scopes == [] then Granted
    else if scopes[0] in STANDARD_SCOPES then CheckScopes(policy, context, scopes[1..])
    else
      match Resolve(policy.rules, context.(scope := scopes[0]), true)
      case Allowed(_) => CheckScopes(policy, context, scopes[1..])
      case Denied(_) => ScopeDenied
      case NoMatch => ScopeNotAllowed
  }

  function Evaluate(policy: Policy, request: Request): Access {
    if !policy.valid then InvalidPolicy
    else
      var scopes := Unique(request.scopes);
      var context := Context(request.clientId, request.resourceUri, if scopes == [] then "" else scopes[0]);
      if !Resolve(policy.rules, context, false).Allowed? then ApplicationResource
      else if (exists s :: s in scopes && s in ADMIN_SCOPES) && !policy.adminMember then AdminScope
      else CheckScopes(policy, context, scopes)
  }

  // ---- What the decision depends on ------------------------------------------

  /** The base stage consults only rules without scope leaves, so the scope in the context is irrelevant. */
  lemma BaseIgnoresScope(rules: seq<Rule>, context: Context, scope: string)
    ensures Resolve(rules, context, false) == Resolve(rules, context.(scope := scope), false)
  {
    var other := context.(scope := scope);
    forall r | r in rules ensures Applies(r, context, false) == Applies(r, other, false) {
      if !UsesScope(r.condition) {
        MatchIgnoresScope(r.condition, context, scope);
      }
    }
    var d := Resolve(rules, context, false);
    ResolvedByFirst(rules, context, false);
    SameApplicationSameFirst(rules, context, other, d);
    ResolveIsFirstMatch(rules, other, false, d);
  }

  lemma SameApplicationSameFirst(rules: seq<Rule>, context: Context, other: Context, d: Decision)
    requires forall r :: r in rules ==> Applies(r, context, false) == Applies(r, other, false)
    requires DecidedByFirst(rules, context, false, d)
    ensures DecidedByFirst(rules, other, false, d)
  {
    if !d.NoMatch? {
      var r :| IsFirst(r, rules, context, false) && r.priority == d.priority && (d.Allowed? <==> r.effect.Allow?);
      assert IsFirst(r, rules, other, false);
    }
  }

  /** One scope passes on its own. */
  predicate ScopePasses(policy: Policy, clientId: string, resourceUri: string, scope: string) {
    && (scope in ADMIN_SCOPES ==> policy.adminMember)
    && (scope in STANDARD_SCOPES
        || Resolve(policy.rules, Context(clientId, resourceUri, scope), true).Allowed?)
  }

  predicate BasePasses(policy: Policy, clientId: string, resourceUri: string) {
    policy.valid && Resolve(policy.rules, Context(clientId, resourceUri, ""), false).Allowed?
  }

  lemma {:induction false} CheckScopesMeaning(policy: Policy, context: Context, scopes: seq<string>)
    ensures CheckScopes(policy, context, scopes).Granted? <==>
            forall s :: s in scopes ==>
              s in STANDARD_SCOPES || Resolve(policy.rules, context.(scope := s), true).Allowed?
  {
    if scopes != [] {
      assert scopes[0] in scopes;
      CheckScopesMeaning(policy, context, scopes[1..]);
    }
  }

  /** A token is granted exactly when the base decision holds and each of its scopes passes alone. */
  lemma GrantedMeansEachScope(policy: Policy, request: Request)
    ensures Evaluate(policy, request).Granted? <==>
            && BasePasses(policy, request.clientId, request.resourceUri)
            && forall s :: s in request.scopes ==> ScopePasses(policy, request.clientId, request.resourceUri, s)
  {
    var scopes := Unique(request.scopes);
    var context := Context(request.clientId, request.resourceUri, if scopes == [] then "" else scopes[0]);
    BaseIgnoresScope(policy.rules, context, "");
    CheckScopesMeaning(policy, context, scopes);
    forall s | s in scopes
      ensures context.(scope := s) == Context(request.clientId, request.resourceUri, s) {
    }
  }

  /** Whether access is granted depends only on the set of scopes: order and duplicates do not matter. */
  lemma DecisionDependsOnScopeSet(policy: Policy, a: Request, b: Request)
    requires a.clientId == b.clientId && a.resourceUri == b.resourceUri
    requires forall s :: s in a.scopes <==> s in b.scopes
    ensures Evaluate(policy, a).Granted? <==> Evaluate(policy, b).Granted?
  {
    GrantedMeansEachScope(policy, a);
    GrantedMeansEachScope(policy, b);
  }

  /** Granted scope sets are closed under subset and union. */
  lemma GrantedScopesCompose(policy: Policy, clientId: string, resourceUri: string, a: seq<string>, b: seq<string>)
    ensures Evaluate(policy, Request(clientId, resourceUri, a + b)).Granted? <==>
            && Evaluate(policy, Request(clientId, resourceUri, a)).Granted?
            && Evaluate(policy, Request(clientId, resourceUri, b)).Granted?
  {
    GrantedMeansEachScope(policy, Request(clientId, resourceUri, a + b));
    GrantedMeansEachScope(policy, Request(clientId, resourceUri, a));
    GrantedMeansEachScope(policy, Request(clientId, resourceUri, b));
  }
}
