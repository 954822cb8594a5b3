/**
 The account tables and the refresh protocol joined: one family, whose row in `refresh_tokens` is at
 the same time the family of the account transactions and the mirror of the refresh protocol.

 A joint step is one step of either system, or of both where a statement concerns both. Its effect
 is defined by the two systems; that their views of the row agree is proved.
 */
module SessionTokens {
  import opened Wrappers
  import opened Accounts
  import opened AccountTheorems
  import opened AccountEvents
  import A = AccountRuns
  import P = RefreshProtocol

  datatype Joint = Joint(accounts: A.State, tokens: P.State)

  const START := Joint(A.START, P.START)

  datatype Step =
    | Account(e: AccountEvents.Event)
    | Token(t: P.Event)
    | Insert(call: P.CallId)
    | InsertThrew(call: P.CallId, applied: bool)
    | RevokeRow(call: P.CallId, ok: bool, now: int)

  /** Steps of the protocol that neither create, revoke nor delete the row. */
  predicate LeavesRow(t: P.Event) {
    t.IssueInit? || t.RotateFamily? || t.MirrorWrite? || t.MirrorThrew? || t.Compensate? || t.Abandon?
    || t.FamilyRevoked? || t.FamilyAlarm?
  }

  /** What the step is to the account tables. */
  function AccountPart(issue: Issue, step: Step): seq<AccountEvents.Event> {
    match step
    case Account(e) => [e]
    case Token(_) => []
    case Insert(_) => [OnFamily(IssueFamily(issue))]
    case InsertThrew(_, applied) => if applied then [OnFamily(IssueFamily(issue))] else []
    case RevokeRow(_, ok, now) => if ok then [OnFamily(RevokeSome({issue.id}, now))] else []
  }

  /** What an account transaction means for the row of this family. */
  function RowPart(id: Id, before: Db, after: Db): seq<P.Event> {
    if id !in before.families then []
    else if id !in after.families then [P.RowDeleted]
    else if before.families[id].revokedAt.None? && after.families[id].revokedAt.Some? then [P.RowRevoked]
    else []
  }

  /** What the step is to the protocol. */
  function TokenPart(issue: Issue, j: Joint, step: Step): seq<P.Event> {
    match step
    case Account(e) => RowPart(issue.id, j.accounts.db, Transact(j.accounts.db, e))
    case Token(t) => [t]
    case Insert(c) => [if IssueGuard(j.accounts.db, issue) then P.IssueInsert(c) else P.IssueRefused(c)]
    case InsertThrew(c, applied) => [P.IssueThrew(c, applied && IssueGuard(j.accounts.db, issue))]
    case RevokeRow(c, ok, _) => [P.RevokeRow(c, ok)]
  }

  /** Another issuance uses another identifier; otherwise both parts must be possible. */
  predicate Enabled(issue: Issue, j: Joint, step: Step) {
    && (step.Account? ==> !(Issues(step.e) && step.e.f.issue.id == issue.id))
    && (step.Token? ==> LeavesRow(step.t))
    && A.Run(j.accounts, AccountPart(issue, step)).Some?
    && P.Run(j.tokens, TokenPart(issue, j, step)).Some?
  }

  function Apply(issue: Issue, j: Joint, step: Step): Joint
    requires Enabled(issue, j, step)
  {
    Joint(A.Run(j.accounts, AccountPart(issue, step)).value, P.Run(j.tokens, TokenPart(issue, j, step)).value)
  }

  function Run(issue: Issue, j: Joint, steps: seq<Step>): Option<Joint>
    decreases steps
  {
    if steps == [] then Some(j)
    else if Enabled(issue, j, steps[0]) then Run(issue, Apply(issue, j, steps[0]), steps[1..])
    else None
  }

  // ---- The two views of the row agree --------------------------------------------

  predicate SameRow(id: Id, db: Db, row: P.Mirror) {
    && (row.Present? <==> id in db.families)
    && (row.Present? ==> (row.revoked <==> db.families[id].revokedAt.Some?))
  }

  /** The family is on the session it was issued for, unless that session was deleted. */
  predicate OnItsSession(issue: Issue, s: A.State) {
    issue.id in s.db.families && issue.session.Some? ==>
      || s.db.families[issue.id].sessionId == issue.session
      || (issue.session.value in s.issued && issue.session.value !in s.db.sessions)
  }

  ghost predicate Inv(issue: Issue, j: Joint) {
    && A.Inv(j.accounts) && P.Inv(j.tokens)
    && SameRow(issue.id, j.accounts.db, j.tokens.row)
    && OnItsSession(issue, j.accounts)
  }

  lemma OneAccount(s: A.State, e: AccountEvents.Event)
    ensures A.Run(s, [e]) == if A.Allowed(s, e) then Some(A.Apply(s, e)) else None
  {
    if A.Allowed(s, e) {
      assert [e][1..] == [];
      assert A.Run(A.Apply(s, e), []) == Some(A.Apply(s, e));
    }
  }

  lemma OneToken(s: P.State, e: P.Event)
    ensures P.Run(s, [e]) == if P.Enabled(s, e) then Some(P.Apply(s, e)) else None
  {
    if P.Enabled(s, e) {
      assert [e][1..] == [];
      assert P.Run(P.Apply(s, e), []) == Some(P.Apply(s, e));
    }
  }

  /** A transaction other than its issuance neither creates the family nor revives it. */
  lemma RowFollows(issue: Issue, s: A.State, e: AccountEvents.Event, row: P.Mirror)
    requires A.IdsKnown(s) && A.Allowed(s, e) && !(Issues(e) && e.f.issue.id == issue.id)
    requires SameRow(issue.id, s.db, row)
    ensures var after := Transact(s.db, e);
            var part := RowPart(issue.id, s.db, after);
            && SameRow(issue.id, after,
                       if part == [] then row else if part[0].RowRevoked? then P.RevokeMirror(row) else P.Deleted)
            && (part != [] && part[0].RowDeleted? ==> row.Present?)
  {
    A.StepEvolves(s, e);
  }

  lemma SessionFollows(issue: Issue, s: A.State, e: AccountEvents.Event)
    requires A.Inv(s) && A.Allowed(s, e) && !(Issues(e) && e.f.issue.id == issue.id) && OnItsSession(issue, s)
    ensures OnItsSession(issue, A.Apply(s, e))
  {
    A.StepEvolves(s, e);
    A.StepAttached(s, e);
    StaysOnSession(issue, s, A.Apply(s, e), NewIds(e), A.NewFamilies(e));
  }

  lemma StaysOnSession(issue: Issue, s: A.State, t: A.State, added: set<Id>, families: set<Id>)
    requires A.IdsKnown(s) && A.AllLinked(s.db) && OnItsSession(issue, s)
    requires added !! s.issued && issue.id !in families && t.issued == s.issued + added
    requires AccessEvolves(s.db, t.db, added, families) && Attached(s.db, t.db)
    ensures OnItsSession(issue, t)
  {
    if issue.id in t.db.families && issue.session.Some? {
      var x := issue.session.value;
      assert issue.id in s.db.families && A.Linked(s.db, s.db.families[issue.id]);
      assert x in s.issued;
      if x in t.db.sessions {
        assert x in s.db.sessions;
      }
    }
  }

  lemma AccountKeepsInv(issue: Issue, j: Joint, e: AccountEvents.Event)
    requires Inv(issue, j) && Enabled(issue, j, Account(e))
    ensures Inv(issue, Apply(issue, j, Account(e)))
  {
    OneAccount(j.accounts, e);
    A.StepKeepsInv(j.accounts, e);
    SessionFollows(issue, j.accounts, e);
    RowFollows(issue, j.accounts, e, j.tokens.row);
    var part := RowPart(issue.id, j.accounts.db, Transact(j.accounts.db, e));
    if part != [] {
      OneToken(j.tokens, part[0]);
      P.StepKeepsInv(j.tokens, part[0]);
    }
  }

  lemma RowIsLeft(s: P.State, t: P.Event)
    requires P.Enabled(s, t) && LeavesRow(t)
    ensures var after := P.Apply(s, t).row;
            (after.Present? <==> s.row.Present?) && (s.row.Present? ==> after.revoked == s.row.revoked)
  {
  }

  lemma TokenKeepsInv(issue: Issue, j: Joint, t: P.Event)
    requires Inv(issue, j) && Enabled(issue, j, Token(t))
    ensures Inv(issue, Apply(issue, j, Token(t)))
  {
    OneToken(j.tokens, t);
    P.StepKeepsInv(j.tokens, t);
    RowIsLeft(j.tokens, t);
  }

  /** What an issuance leaves of its own family: a live row on its session, or none. */
  lemma Issued(issue: Issue, s: A.State)
    requires A.IdsKnown(s) && A.Allowed(s, OnFamily(IssueFamily(issue)))
    ensures var after := IssueBatch(s.db, issue);
            && (issue.id in after.families <==> IssueGuard(s.db, issue))
            && (IssueGuard(s.db, issue) ==>
                  after.families[issue.id].revokedAt.None? && after.families[issue.id].sessionId == issue.session)
  {
    if IssueGuard(s.db, issue) {
      PrunedCount(IssueInsert(s.db, issue), issue);
    } else {
      RefusedIssueChangesNothing(s.db, issue);
    }
  }

  lemma InsertKeepsInv(issue: Issue, j: Joint, step: Step)
    requires Inv(issue, j) && Enabled(issue, j, step) && (step.Insert? || step.InsertThrew?)
    ensures Inv(issue, Apply(issue, j, step))
  {
    var e, t := OnFamily(IssueFamily(issue)), TokenPart(issue, j, step)[0];
    OneAccount(j.accounts, e);
    OneToken(j.tokens, t);
    P.StepKeepsInv(j.tokens, t);
    if step.Insert? || step.applied {
      A.StepKeepsInv(j.accounts, e);
      Issued(issue, j.accounts);
    }
  }

  lemma RevokeKeepsInv(issue: Issue, j: Joint, step: Step)
    requires Inv(issue, j) && Enabled(issue, j, step) && step.RevokeRow?
    ensures Inv(issue, Apply(issue, j, step))
  {
    var e, t := OnFamily(RevokeSome({issue.id}, step.now)), P.RevokeRow(step.call, step.ok);
    OneAccount(j.accounts, e);
    OneToken(j.tokens, t);
    P.StepKeepsInv(j.tokens, t);
    if step.ok {
      A.StepKeepsInv(j.accounts, e);
      SessionFollows(issue, j.accounts, e);
    }
  }

  lemma StepKeepsInv(issue: Issue, j: Joint, step: Step)
    requires Inv(issue, j) && Enabled(issue, j, step)
    ensures Inv(issue, Apply(issue, j, step))
  {
    match step {
      case Account(e) => AccountKeepsInv(issue, j, e);
      case Token(t) => TokenKeepsInv(issue, j, t);
      case Insert(_) => InsertKeepsInv(issue, j, step);
      case InsertThrew(_, _) => InsertKeepsInv(issue, j, step);
      case RevokeRow(_, _, _) => RevokeKeepsInv(issue, j, step);
    }
  }

  lemma {:induction false} RunKeepsInv(issue: Issue, j: Joint, steps: seq<Step>)
    requires Inv(issue, j) && Run(issue, j, steps).Some?
    ensures Inv(issue, Run(issue, j, steps).value)
    decreases steps
  {
    if steps != [] {
      StepKeepsInv(issue, j, steps[0]);
      RunKeepsInv(issue, Apply(issue, j, steps[0]), steps[1..]);
    }
  }

  lemma StartGood(issue: Issue)
    ensures Inv(issue, START)
  {
    A.StartGood();
  }

  // ---- Main results ----------------------------------------------------------

  lemma HeldGrows(s: P.State, t: P.Event)
    requires P.Enabled(s, t) && P.Apply(s, t).held != s.held
    ensures t.IssueInsert? || (t.MirrorWrite? && P.Live(s.row))
  {
  }

  /** The family's row is live, and so is its session unless it was deleted. */
  predicate LiveOnLiveSession(issue: Issue, db: Db) {
    && issue.id in db.families && db.families[issue.id].revokedAt.None?
    && (issue.session.Some? && issue.session.value in db.sessions ==> db.sessions[issue.session.value].revokedAt.None?)
  }

  lemma LiveRowLiveSession(issue: Issue, j: Joint)
    requires Inv(issue, j) && P.Live(j.tokens.row)
    ensures LiveOnLiveSession(issue, j.accounts.db)
  {
    assert A.Linked(j.accounts.db, j.accounts.db.families[issue.id]);
  }

  lemma OnlyOnePart(issue: Issue, j: Joint, step: Step)
    requires Enabled(issue, j, step) && Apply(issue, j, step).tokens.held != j.tokens.held
    ensures (step.Insert? && IssueGuard(j.accounts.db, issue))
         || (step.Token? && step.t.MirrorWrite? && P.Live(j.tokens.row))
  {
    var part := TokenPart(issue, j, step);
    assert part != [];
    OneToken(j.tokens, part[0]);
    assert part == [part[0]];
    HeldGrows(j.tokens, part[0]);
  }

  /**
   In every run of both systems together, a step that hands out a token of the family does so while
   the family's row is live and its session is not revoked.
   */
  lemma TokenMeansLiveSession(issue: Issue, steps: seq<Step>, step: Step)
    requires Run(issue, START, steps).Some? && Enabled(issue, Run(issue, START, steps).value, step)
    ensures var j := Run(issue, START, steps).value;
            Apply(issue, j, step).tokens.held != j.tokens.held ==>
              LiveOnLiveSession(issue, Apply(issue, j, step).accounts.db)
  {
    StartGood(issue);
    RunKeepsInv(issue, START, steps);
    var j := Run(issue, START, steps).value;
    if Apply(issue, j, step).tokens.held != j.tokens.held {
      OnlyOnePart(issue, j, step);
      StepKeepsInv(issue, j, step);
      OneToken(j.tokens, TokenPart(issue, j, step)[0]);
      assert P.Live(Apply(issue, j, step).tokens.row);
      LiveRowLiveSession(issue, Apply(issue, j, step));
    }
  }

  /** The session was revoked, or the family itself was revoked or deleted. */
  predicate Shut(issue: Issue, s: A.State) {
    && (issue.id in s.db.families ==> s.db.families[issue.id].revokedAt.Some?)
    && (issue.id in s.issued || (issue.session.Some? && A.SessionDead(s, issue.session.value)))
  }

  lemma ShutStays(issue: Issue, s: A.State, e: AccountEvents.Event)
    requires A.IdsKnown(s) && A.Allowed(s, e) && Shut(issue, s)
    requires Issues(e) && e.f.issue.id == issue.id ==> e.f.issue == issue
    ensures Shut(issue, A.Apply(s, e))
  {
    if issue.id in s.issued {
      A.FamilyDeadStep(s, e, issue.id);
    } else {
      A.SessionDeadStep(s, e, issue.session.value);
      A.StepEvolves(s, e);
      if Issues(e) && e.f.issue == issue {
        Issued(issue, s);
      }
    }
  }

  lemma ShutStep(issue: Issue, j: Joint, step: Step)
    requires Inv(issue, j) && Shut(issue, j.accounts) && Enabled(issue, j, step)
    ensures Shut(issue, Apply(issue, j, step).accounts) && Apply(issue, j, step).tokens.held == j.tokens.held
  {
    var part := AccountPart(issue, step);
    if part != [] {
      assert part == [part[0]];
      OneAccount(j.accounts, part[0]);
      ShutStays(issue, j.accounts, part[0]);
    }
    if Apply(issue, j, step).tokens.held != j.tokens.held {
      OnlyOnePart(issue, j, step);
      assert false;
    }
  }

  lemma {:induction false} ShutRun(issue: Issue, j: Joint, more: seq<Step>)
    requires Inv(issue, j) && Shut(issue, j.accounts) && Run(issue, j, more).Some?
    ensures Run(issue, j, more).value.tokens.held == j.tokens.held
    decreases more
  {
    if more != [] {
      ShutStep(issue, j, more[0]);
      StepKeepsInv(issue, j, more[0]);
      ShutRun(issue, Apply(issue, j, more[0]), more[1..]);
    }
  }

  /**
   End to end: once an account transaction has revoked the session a family is issued for, or revoked
   or deleted the family, then in every continuation no call whose D1 write comes later hands out a
   token of that family, whatever reaches its Durable Object. This holds also if the family was not
   inserted yet.
   */
  lemma RevokedSessionReturnsNothing(issue: Issue, steps: seq<Step>, more: seq<Step>)
    requires Run(issue, START, steps).Some? && Run(issue, Run(issue, START, steps).value, more).Some?
    requires var s := Run(issue, START, steps).value.accounts;
             || (issue.session.Some? && issue.session.value in s.db.sessions
                 && s.db.sessions[issue.session.value].revokedAt.Some?)
             || A.FamilyDead(s, issue.id)
    ensures Run(issue, Run(issue, START, steps).value, more).value.tokens.held
         == Run(issue, START, steps).value.tokens.held
  {
    StartGood(issue);
    RunKeepsInv(issue, START, steps);
    var j := Run(issue, START, steps).value;
    RevokedIsShut(issue, j);
    ShutRun(issue, j, more);
  }

  lemma RevokedIsShut(issue: Issue, j: Joint)
    requires Inv(issue, j)
    requires var s := j.accounts;
             || (issue.session.Some? && issue.session.value in s.db.sessions
                 && s.db.sessions[issue.session.value].revokedAt.Some?)
             || A.FamilyDead(s, issue.id)
    ensures Shut(issue, j.accounts)
  {
    if issue.id in j.accounts.db.families {
      assert A.Linked(j.accounts.db, j.accounts.db.families[issue.id]);
    }
  }
}
