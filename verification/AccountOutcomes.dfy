/**
 What a revoking transaction settles for good: in every continuation of every run, the sessions and
 refresh families that it hit are never live again, and replaced passwords never come back.
 */
module AccountOutcomes {
  import opened Wrappers
  import opened Accounts
  import opened AccountTheorems
  import opened AccountEvents
  import opened AccountRuns
  import opened AccountChanges

  /** A run from `s` that begins with `e` and goes on with `later` ends in `t`. */
  predicate Leads(s: State, e: Event, later: seq<Event>, t: State) {
    Allowed(s, e) && Run(Apply(s, e), later) == Some(t)
  }

  /** None of these is live. */
  ghost predicate AllDead(s: State, sessions: set<Id>, families: set<Id>) {
    && (forall x :: x in sessions && x in s.db.sessions ==> s.db.sessions[x].revokedAt.Some?)
    && (forall f :: f in families && f in s.db.families ==> s.db.families[f].revokedAt.Some?)
  }

  /** Rows that were there before an event and are dead right after it are dead at the end. */
  lemma DeadAtTheEnd(s: State, e: Event, later: seq<Event>, t: State, sessions: set<Id>, families: set<Id>)
    requires IdsKnown(s) && Leads(s, e, later, t) && AllDead(Apply(s, e), sessions, families)
    requires sessions <= s.db.sessions.Keys && families <= s.db.families.Keys
    ensures AllDead(t, sessions, families)
  {
    var s1 := Apply(s, e);
    StepKeepsIds(s, e);
    forall x | x in sessions ensures x in t.db.sessions ==> t.db.sessions[x].revokedAt.Some? {
      assert SessionDead(s1, x);
      RevocationIsFinal(s1, later, x);
    }
    forall f | f in families ensures f in t.db.families ==> t.db.families[f].revokedAt.Some? {
      assert FamilyDead(s1, f);
      RevocationIsFinal(s1, later, f);
    }
  }

  /** Logging out everywhere ends every session and family the user had, for good. */
  lemma LogOutEverywhereIsFinal(s: State, user: Id, now: int, later: seq<Event>, t: State)
    requires IdsKnown(s) && Leads(s, OnSession(LogOutAll(user, now)), later, t)
    ensures AllDead(t, (set x | x in s.db.sessions && s.db.sessions[x].userId == user),
                    (set f | f in s.db.families && s.db.families[f].userId == user))
  {
    LogOutAllIsExact(s.db, user, now);
    DeadAtTheEnd(s, OnSession(LogOutAll(user, now)), later, t,
                 (set x | x in s.db.sessions && s.db.sessions[x].userId == user),
                 (set f | f in s.db.families && s.db.families[f].userId == user));
  }

  /** Logging out ends the sessions of the token, and the families on them. */
  lemma LogOutIsFinal(s: State, token: Id, now: int, later: seq<Event>, t: State)
    requires IdsKnown(s) && Leads(s, OnSession(LogOut(token, now)), later, t)
    ensures AllDead(t, (set x | x in s.db.sessions && s.db.sessions[x].tokenHash == token),
                    (set f | f in s.db.families && OnToken(s.db, s.db.families[f], token)))
  {
    LogOutIsExact(s.db, token, now);
    DeadAtTheEnd(s, OnSession(LogOut(token, now)), later, t,
                 (set x | x in s.db.sessions && s.db.sessions[x].tokenHash == token),
                 (set f | f in s.db.families && OnToken(s.db, s.db.families[f], token)));
  }

  /** Ending one session of the user ends it and the families on it. */
  lemma LogOutOneIsFinal(s: State, id: Id, user: Id, now: int, later: seq<Event>, t: State)
    requires IdsKnown(s) && Leads(s, OnSession(LogOutOne(id, user, now)), later, t)
    requires id in s.db.sessions && s.db.sessions[id].userId == user
    ensures AllDead(t, {id}, (set f | f in s.db.families && s.db.families[f].sessionId == Some(id)))
  {
    LogOutOneIsExact(s.db, id, user, now);
    DeadAtTheEnd(s, OnSession(LogOutOne(id, user, now)), later, t,
                 {id}, (set f | f in s.db.families && s.db.families[f].sessionId == Some(id)));
  }

  /** Ending the others ends every other session, and every family that is not on the one that is kept. */
  lemma LogOutOthersIsFinal(s: State, user: Id, keep: Id, now: int, later: seq<Event>, t: State)
    requires IdsKnown(s) && Leads(s, OnSession(LogOutOthers(user, keep, now)), later, t)
    ensures AllDead(t, (set x | x in s.db.sessions && s.db.sessions[x].userId == user && x != keep),
                    (set f | f in s.db.families && s.db.families[f].userId == user
                             && s.db.families[f].sessionId != Some(keep)))
  {
    LogOutOthersIsExact(s.db, user, keep, now);
    DeadAtTheEnd(s, OnSession(LogOutOthers(user, keep, now)), later, t,
                 (set x | x in s.db.sessions && s.db.sessions[x].userId == user && x != keep),
                 (set f | f in s.db.families && s.db.families[f].userId == user
                          && s.db.families[f].sessionId != Some(keep)));
  }

  // ---- Recovery ----------------------------------------------------------------------

  predicate CredentialGone(s: State, id: Id) {
    id in s.issued && id !in s.db.credentials
  }

  lemma {:induction false} GoneForGood(s: State, events: seq<Event>, id: Id)
    requires IdsKnown(s) && CredentialGone(s, id) && Run(s, events).Some?
    ensures CredentialGone(Run(s, events).value, id)
    decreases events
  {
    if events != [] {
      StepEvolves(s, events[0]);
      StepKeepsIds(s, events[0]);
      GoneForGood(Apply(s, events[0]), events[1..], id);
    }
  }

  /** The epoch the recovery names is the current one of an enabled account. */
  predicate Current(s: State, r: Recovery) {
    r.user in s.db.users && !s.db.users[r.user].disabled && s.db.users[r.user].securityVersion == r.version
  }

  /** Such a recovery is logged, and its password is the only one of the user. */
  lemma RecoveryIsLogged(s: State, r: Recovery)
    requires IdsKnown(s) && Allowed(s, OnLogin(Recover(r))) && Current(s, r)
    ensures var s1 := Apply(s, OnLogin(Recover(r)));
            && s1.recovered == s.recovered + [(r.user, r.version)]
            && forall c :: c in s1.db.credentials && s1.db.credentials[c].userId == r.user <==> c == r.credentialId
  {
    assert r.credentialId !in s.db.credentials;
    RecoveryIsExact(s.db, r);
  }

  /**
   In every continuation, the sessions, families and passwords that the user had before the recovery
   are dead or gone.
   */
  lemma RecoveryIsFinal(s: State, r: Recovery, later: seq<Event>, t: State)
    requires IdsKnown(s) && Leads(s, OnLogin(Recover(r)), later, t) && Current(s, r)
    ensures AllDead(t, (set x | x in s.db.sessions && s.db.sessions[x].userId == r.user),
                    (set f | f in s.db.families && s.db.families[f].userId == r.user))
    ensures forall c :: c in s.db.credentials && s.db.credentials[c].userId == r.user ==> c !in t.db.credentials
  {
    RecoveryRevokes(s, r);
    DeadAtTheEnd(s, OnLogin(Recover(r)), later, t, (set x | x in s.db.sessions && s.db.sessions[x].userId == r.user),
                 (set f | f in s.db.families && s.db.families[f].userId == r.user));
    forall c | c in s.db.credentials && s.db.credentials[c].userId == r.user ensures c !in t.db.credentials {
      OldPasswordIsGone(s, r, c, later, t);
    }
  }

  lemma RecoveryRevokes(s: State, r: Recovery)
    requires IdsKnown(s) && Allowed(s, OnLogin(Recover(r))) && Current(s, r)
    ensures AllDead(Apply(s, OnLogin(Recover(r))), (set x | x in s.db.sessions && s.db.sessions[x].userId == r.user),
                    (set f | f in s.db.families && s.db.families[f].userId == r.user))
  {
    var after := RecoveryBatch(s.db, r);
    assert Recovered(s.db, after, r) by {
      assert r.credentialId !in s.db.credentials;
      RecoveryIsExact(s.db, r);
    }
    assert Apply(s, OnLogin(Recover(r))).db == after;
  }

  lemma OldPasswordIsGone(s: State, r: Recovery, c: Id, later: seq<Event>, t: State)
    requires IdsKnown(s) && Leads(s, OnLogin(Recover(r)), later, t) && Current(s, r)
    requires c in s.db.credentials && s.db.credentials[c].userId == r.user
    ensures c !in t.db.credentials
  {
    StepKeepsIds(s, OnLogin(Recover(r)));
    RecoveryIsExact(s.db, r);
    assert c in s.issued && c != r.credentialId;
    GoneForGood(Apply(s, OnLogin(Recover(r))), later, c);
  }

  // ---- Changed passwords -------------------------------------------------------------

  /** The user's epoch is at least this, while the account exists. */
  predicate EpochFrom(s: State, user: Id, version: int) {
    user in s.issued && (user in s.db.users ==> s.db.users[user].securityVersion >= version)
  }

  lemma {:induction false} EpochNeverFalls(s: State, events: seq<Event>, user: Id, version: int)
    requires IdsKnown(s) && EpochFrom(s, user, version) && Run(s, events).Some?
    ensures EpochFrom(Run(s, events).value, user, version)
    decreases events
  {
    if events != [] {
      StepEvolves(s, events[0]);
      StepKeepsIds(s, events[0]);
      EpochNeverFalls(Apply(s, events[0]), events[1..], user, version);
    }
  }

  /** A capability of this epoch neither opens a session nor recovers the account. */
  ghost predicate Spent(s: State, user: Id, version: int) {
    && (forall id, hash, expiresAt ::
          CreateSessionAtSecurityVersion(s.db, id, user, hash, expiresAt, version) == s.db)
    && (forall r: Recovery :: r.user == user && r.version == version && r.credentialId !in s.db.credentials ==>
          RecoveryBatch(s.db, r) == s.db)
  }

  lemma AheadIsSpent(s: State, user: Id, version: int)
    requires user in s.db.users ==> s.db.users[user].securityVersion > version
    ensures Spent(s, user, version)
  {
    forall r: Recovery | r.user == user && r.version == version && r.credentialId !in s.db.credentials
      ensures RecoveryBatch(s.db, r) == s.db
    {
      RecoveryIsExact(s.db, r);
    }
  }

  /**
   Setting a password leaves it as the only one; in every continuation the old passwords are gone and
   the capabilities of the old epoch, and of older ones, are spent.
   */
  lemma PasswordChangeIsFinal(s: State, user: Id, id: Id, hash: Id, eligible: bool, later: seq<Event>, t: State,
                              version: int)
    requires IdsKnown(s) && Leads(s, OnLogin(SetPassword(user, id, hash, eligible)), later, t)
    requires user in s.db.users && version <= s.db.users[user].securityVersion
    ensures var s1 := Apply(s, OnLogin(SetPassword(user, id, hash, eligible)));
            forall c :: c in s1.db.credentials && s1.db.credentials[c].userId == user <==> c == id
    ensures forall c :: c in s.db.credentials && s.db.credentials[c].userId == user ==> c !in t.db.credentials
    ensures Spent(t, user, version)
  {
    var e := OnLogin(SetPassword(user, id, hash, eligible));
    assert id !in s.db.credentials;
    SetPasswordIsExact(s.db, user, id, hash, eligible);
    StepKeepsIds(s, e);
    forall c | c in s.db.credentials && s.db.credentials[c].userId == user ensures c !in t.db.credentials {
      GoneForGood(Apply(s, e), later, c);
    }
    EpochNeverFalls(Apply(s, e), later, user, version + 1);
    AheadIsSpent(t, user, version);
  }

  /** An added password is there, and spends the capabilities of its epoch and older ones for good. */
  lemma PasswordAdditionIsFinal(s: State, user: Id, id: Id, hash: Id, eligible: bool, later: seq<Event>, t: State,
                                version: int)
    requires IdsKnown(s) && Leads(s, OnLogin(AddPassword(user, id, hash, eligible)), later, t)
    requires user in s.db.users && !s.db.users[user].disabled && version <= s.db.users[user].securityVersion
    requires |set c | c in s.db.credentials && s.db.credentials[c].userId == user| < 5
    ensures id in Apply(s, OnLogin(AddPassword(user, id, hash, eligible))).db.credentials
    ensures Spent(t, user, version)
  {
    var e := OnLogin(AddPassword(user, id, hash, eligible));
    assert id !in s.db.credentials;
    AddPasswordIsExact(s.db, user, id, hash, eligible);
    StepKeepsIds(s, e);
    EpochNeverFalls(Apply(s, e), later, user, version + 1);
    AheadIsSpent(t, user, version);
  }

  // ---- New rows ------------------------------------------------------------------------

  predicate EnabledUser(s: State, user: Id) {
    user in s.db.users && !s.db.users[user].disabled
  }

  /** A login opens a live session exactly for an enabled account, a capability only at its own epoch. */
  lemma LoginOpensSession(s: State, id: Id, user: Id, hash: Id, expiresAt: int, version: int)
    requires IdsKnown(s) && id !in s.issued
    ensures var t := Apply(s, OnSession(New(id, user, hash, expiresAt)));
            if EnabledUser(s, user) then id in t.db.sessions && t.db.sessions[id] == Session(user, hash, expiresAt, None)
            else t.db == s.db
    ensures var t := Apply(s, OnSession(NewAt(id, user, hash, expiresAt, version)));
            if EnabledUser(s, user) && s.db.users[user].securityVersion == version
            then id in t.db.sessions && t.db.sessions[id] == Session(user, hash, expiresAt, None)
            else t.db == s.db
  {
    CreateSessionIsExact(s.db, id, user, hash, expiresAt);
    CreateSessionAtIsExact(s.db, id, user, hash, expiresAt, version);
  }

  /** An issuance on a live session of an enabled account adds a live family on that session. */
  lemma IssuanceAddsFamily(s: State, i: Issue)
    requires IdsKnown(s) && Allowed(s, OnFamily(IssueFamily(i))) && EnabledUser(s, i.user)
    requires i.session.Some? && i.session.value in s.db.sessions && s.db.sessions[i.session.value].userId == i.user
    requires s.db.sessions[i.session.value].revokedAt.None? && s.db.sessions[i.session.value].expiresAt > i.now
    ensures var t := Apply(s, OnFamily(IssueFamily(i)));
            i.id in t.db.families && t.db.families[i.id] == Family(i.user, i.client, i.session, i.now, i.expiresAt, None)
  {
    assert i.id !in s.db.families;
    IssueIsExact(s.db, i);
  }

  /** Login methods are added to accounts that exist, and removed while another one is left. */
  lemma MethodsComeAndGo(s: State, id: Id, other: Id, user: Id)
    requires IdsKnown(s) && user in s.db.users && id != other
    ensures id in Apply(s, OnLogin(AddPasskey(id, user))).db.passkeys
    ensures id in s.db.credentials && s.db.credentials[id].userId == user
            && other in s.db.credentials && s.db.credentials[other].userId == user ==>
              Apply(s, OnLogin(RemovePassword(id, user))).db.credentials == s.db.credentials - {id}
    ensures id in s.db.passkeys && s.db.passkeys[id].userId == user
            && other in s.db.passkeys && s.db.passkeys[other].userId == user ==>
              Apply(s, OnLogin(RemovePasskey(id, user))).db.passkeys == s.db.passkeys - {id}
  {
    InsertPasskeyIsExact(s.db, id, user);
    DeletePasswordIsExact(s.db, id, user);
    DeletePasskeyIsExact(s.db, id, user);
  }
}
