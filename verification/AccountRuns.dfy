/**
 Runs of account transactions in any order: the links between users, sessions, credentials and
 refresh families, the security epoch, the caps, and the last login method.
 */
module AccountRuns {
  import opened Arithmetic
  import opened Wrappers
  import opened Selection
  import opened Accounts
  import opened AccountTheorems
  import opened AccountEvents

  /** `issued` are all identifiers ever generated; `recovered` logs each successful recovery's epoch. */
  datatype State = State(clock: int, db: Db, issued: set<Id>, recovered: seq<(Id, int)>)

  const START := State(0, Db(map[], map[], map[], map[], map[]), {}, [])

  /** Generated identifiers are fresh; a family's clock sample is never ahead of the clock. */
  predicate Allowed(s: State, e: Event) {
    && NewIds(e) !! s.issued
    && (Issues(e) ==> e.f.issue.now <= s.clock && e.f.issue.now < e.f.issue.expiresAt)
  }

  function Apply(s: State, e: Event): State {
    State(
      if e.Tick? then s.clock + e.seconds else s.clock,
      Transact(s.db, e),
      s.issued + NewIds(e),
      if Recovers(e) && AtEpoch(s.db, e.l.recovery.user, e.l.recovery.version)
      then s.recovered + [(e.l.recovery.user, e.l.recovery.version)] else s.recovered)
  }

  function Run(s: State, events: seq<Event>): Option<State>
    decreases events
  {
    if events == [] then Some(s)
    else if Allowed(s, events[0]) then Run(Apply(s, events[0]), events[1..])
    else None
  }

  // ---- Every step evolves the tables ---------------------------------------------

  ghost predicate IdsKnown(s: State) {
    s.db.users.Keys <= s.issued && s.db.sessions.Keys <= s.issued
    && s.db.families.Keys <= s.issued && s.db.credentials.Keys <= s.issued && s.db.passkeys.Keys <= s.issued
  }

  /** The family an event adds, if any. */
  function NewFamilies(e: Event): set<Id> {
    if e.OnFamily? then NewFamily(e.f) else {}
  }

  lemma StepEvolves(s: State, e: Event)
    requires IdsKnown(s) && Allowed(s, e)
    ensures AccountsEvolve(s.db, Transact(s.db, e), NewIds(e))
    ensures AccessEvolves(s.db, Transact(s.db, e), NewIds(e), NewFamilies(e))
  {
    match e {
      case Tick(_) =>
      case OnUser(u) => UserEventEvolves(s.db, u);
      case OnSession(x) => SessionEventEvolves(s.db, x);
      case OnLogin(l) => LoginEventEvolves(s.db, l);
      case OnFamily(f) => FamilyEventEvolves(s.db, f);
    }
  }

  lemma StepAttached(s: State, e: Event)
    requires IdsKnown(s) && Allowed(s, e)
    ensures Attached(s.db, Transact(s.db, e))
  {
    match e {
      case Tick(_) =>
      case OnUser(u) => UserEventAttached(s.db, u);
      case OnSession(x) => SessionEventAttached(s.db, x);
      case OnLogin(l) => LoginEventAttached(s.db, l);
      case OnFamily(f) => FamilyEventAttached(s.db, f);
    }
  }

  lemma StepKeepsIds(s: State, e: Event)
    requires IdsKnown(s) && Allowed(s, e)
    ensures IdsKnown(Apply(s, e))
  {
    StepEvolves(s, e);
    IdsFollow(s, Apply(s, e), NewIds(e), NewFamilies(e));
  }

  lemma IdsFollow(s: State, t: State, added: set<Id>, families: set<Id>)
    requires IdsKnown(s) && t.issued == s.issued + added && families <= added
    requires AccountsEvolve(s.db, t.db, added) && AccessEvolves(s.db, t.db, added, families)
    ensures IdsKnown(t)
  {
    assert forall u :: u in t.db.users ==> u in t.issued;
    assert forall x :: x in t.db.sessions ==> x in t.issued;
    assert forall f :: f in t.db.families ==> f in t.issued;
    assert forall c :: c in t.db.credentials ==> c in t.issued;
    assert forall p :: p in t.db.passkeys ==> p in t.issued;
  }

  // ---- Sessions and families -------------------------------------------------

  /** A family's session exists, is the same user's, and is unrevoked while the family is. */
  predicate Linked(db: Db, f: Family) {
    f.sessionId.Some? ==>
      && f.sessionId.value in db.sessions
      && db.sessions[f.sessionId.value].userId == f.userId
      && (f.revokedAt.None? ==> db.sessions[f.sessionId.value].revokedAt.None?)
  }

  ghost predicate AllLinked(db: Db) {
    && (forall f :: f in db.families ==> Linked(db, db.families[f]))
    && (forall x :: x in db.sessions ==> db.sessions[x].userId in db.users)
    && (forall f :: f in db.families ==> db.families[f].userId in db.users)
  }

  /** Links survive when sessions and families stay and no user goes. */
  lemma SameRowsKeepLinks(db: Db, after: Db)
    requires AllLinked(db) && db.users.Keys <= after.users.Keys
    requires after.sessions == db.sessions && after.families == db.families
    ensures AllLinked(after)
  {
  }

  /** Revoking families alone, or together with all their user's sessions, keeps the links. */
  lemma RevokedFamiliesKeepLinks(db: Db, ids: set<Id>, now: int)
    requires AllLinked(db)
    ensures AllLinked(db.(families := RevokeFamilies(db.families, ids, now)))
  {
  }

  lemma LogOutAllKeepsLinks(db: Db, user: Id, now: int)
    requires AllLinked(db)
    ensures AllLinked(RevokeAllUserSessions(db, user, now))
  {
  }

  lemma RemovalKeepsLinks(db: Db, user: Id)
    requires AllLinked(db)
    ensures AllLinked(DeleteUser(db, user))
  {
  }

  lemma UserEventKeepsLinks(db: Db, e: UserEvent)
    requires AllLinked(db)
    ensures AllLinked(UserTransact(db, e))
  {
    match e {
      case Create(_) => SameRowsKeepLinks(db, UserTransact(db, e));
      case Transition(user, disabled, advance, revoke, now) =>
        var quiet := TransitionStep(db, user, disabled, advance, false, now);
        SameRowsKeepLinks(db, quiet);
        LogOutAllKeepsLinks(quiet, user, now);
      case Remove(user) => RemovalKeepsLinks(db, user);
    }
  }

  lemma SessionEventKeepsLinks(db: Db, e: SessionEvent)
    requires AllLinked(db) && NewSession(e) !! db.sessions.Keys
    ensures AllLinked(SessionTransact(db, e))
  {
  }

  lemma RecoveryKeepsLinks(db: Db, r: Recovery)
    requires AllLinked(db) && r.credentialId !in db.credentials
    ensures AllLinked(RecoveryBatch(db, r))
  {
    RecoveryIsCompareAndSet(db, r);
  }

  lemma LoginEventKeepsLinks(db: Db, e: LoginEvent)
    requires AllLinked(db) && NewLogin(e) !! db.credentials.Keys
    ensures AllLinked(LoginTransact(db, e))
  {
    if e.Recover? {
      RecoveryKeepsLinks(db, e.recovery);
    } else {
      SameRowsKeepLinks(db, LoginTransact(db, e));
    }
  }

  lemma InsertKeepsLinks(db: Db, i: Issue)
    requires AllLinked(db)
    ensures AllLinked(IssueInsert(db, i))
  {
  }

  lemma FamilyEventKeepsLinks(db: Db, e: FamilyEvent)
    requires AllLinked(db)
    ensures AllLinked(FamilyTransact(db, e))
  {
    match e {
      case IssueFamily(i) =>
        InsertKeepsLinks(db, i);
        RevokedFamiliesKeepLinks(IssueInsert(db, i), Pruned(IssueInsert(db, i), i), i.now);
      case RevokeSome(ids, now) => RevokedFamiliesKeepLinks(db, ids, now);
      case PurgeFamilies(_) =>
    }
  }

  lemma StepKeepsLinks(s: State, e: Event)
    requires AllLinked(s.db) && IdsKnown(s) && Allowed(s, e)
    ensures AllLinked(Transact(s.db, e))
  {
    match e {
      case Tick(_) =>
      case OnUser(u) => UserEventKeepsLinks(s.db, u);
      case OnSession(x) => SessionEventKeepsLinks(s.db, x);
      case OnLogin(l) => LoginEventKeepsLinks(s.db, l);
      case OnFamily(f) => FamilyEventKeepsLinks(s.db, f);
    }
  }

  // ---- The security epoch ----------------------------------------------------

  ghost predicate EpochInv(s: State) {
    && (forall i, j :: 0 <= i < j < |s.recovered| ==> s.recovered[i] != s.recovered[j])
    && (forall x :: x in s.recovered ==>
          && x.0 in s.issued
          && (x.0 in s.db.users ==> s.db.users[x.0].securityVersion > x.1))
  }

  lemma StillAhead(s: State, users: map<Id, User>, added: set<Id>, x: (Id, int))
    requires EpochInv(s) && UsersEvolve(s.db.users, users, added) && added !! s.issued && x in s.recovered
    ensures x.0 in s.issued && (x.0 in users ==> users[x.0].securityVersion > x.1)
  {
    var u := x.0;
    if u in users {
      assert u in s.db.users;
    }
  }

  /** A recovery at the current epoch is none that is in the log, and leaves that epoch behind. */
  lemma EpochLogged(s: State, t: State, added: set<Id>, user: Id, version: int)
    requires EpochInv(s) && UsersEvolve(s.db.users, t.db.users, added) && added !! s.issued && s.issued <= t.issued
    requires t.recovered == s.recovered + [(user, version)]
    requires user in s.issued && user in s.db.users && s.db.users[user].securityVersion == version
    requires user in t.db.users && t.db.users[user].securityVersion == version + 1
    ensures EpochInv(t)
  {
    assert (user, version) !in s.recovered;
    forall x | x in t.recovered
      ensures x.0 in t.issued && (x.0 in t.db.users ==> t.db.users[x.0].securityVersion > x.1)
    {
      if x != (user, version) {
        StillAhead(s, t.db.users, added, x);
      }
    }
  }

  lemma EpochsKept(s: State, t: State, added: set<Id>)
    requires EpochInv(s) && UsersEvolve(s.db.users, t.db.users, added) && added !! s.issued && s.issued <= t.issued
    requires t.recovered == s.recovered
    ensures EpochInv(t)
  {
    forall x | x in t.recovered
      ensures x.0 in t.issued && (x.0 in t.db.users ==> t.db.users[x.0].securityVersion > x.1)
    {
      StillAhead(s, t.db.users, added, x);
    }
  }

  lemma StepKeepsEpochs(s: State, e: Event)
    requires IdsKnown(s) && Allowed(s, e) && EpochInv(s)
    ensures EpochInv(Apply(s, e))
  {
    StepEvolves(s, e);
    var t := Apply(s, e);
    if Recovers(e) && AtEpoch(s.db, e.l.recovery.user, e.l.recovery.version) {
      RecoveryIsCompareAndSet(s.db, e.l.recovery);
      EpochLogged(s, t, NewIds(e), e.l.recovery.user, e.l.recovery.version);
    } else {
      EpochsKept(s, t, NewIds(e));
    }
  }

  // ---- The caps --------------------------------------------------------------

  ghost predicate FamilyCap(s: State) {
    forall user, client :: |ActiveFamilies(s.db, user, client, s.clock)| <= MAXIMUM_ACTIVE_FAMILIES
  }

  /** An issuance adds a family of its own pair only. */
  lemma IssuedPair(db: Db, i: Issue)
    requires i.id in IssueBatch(db, i).families && i.id !in db.families
    ensures IssueBatch(db, i).families[i.id].userId == i.user && IssueBatch(db, i).families[i.id].clientId == i.client
  {
  }

  /** Outside its own pair an issuance, and everywhere any other step, activates no family. */
  lemma NoNewActive(s: State, e: Event, user: Id, client: Id)
    requires IdsKnown(s) && Allowed(s, e)
    requires !(Issues(e) && e.f.issue.user == user && e.f.issue.client == client)
    ensures ActiveFamilies(Transact(s.db, e), user, client, s.clock) <= ActiveFamilies(s.db, user, client, s.clock)
  {
    StepEvolves(s, e);
    var db := Transact(s.db, e);
    forall f | f in ActiveFamilies(db, user, client, s.clock) ensures f in ActiveFamilies(s.db, user, client, s.clock) {
      if f in NewFamilies(e) {
        IssuedPair(s.db, e.f.issue);
      }
      assert f in db.families;
    }
  }

  lemma StepKeepsCap(s: State, e: Event)
    requires IdsKnown(s) && Allowed(s, e) && FamilyCap(s)
    ensures FamilyCap(Apply(s, e))
  {
    var t := Apply(s, e);
    forall user, client ensures |ActiveFamilies(t.db, user, client, t.clock)| <= MAXIMUM_ACTIVE_FAMILIES {
      ActiveShrinks(t.db, user, client, s.clock, t.clock);
      if Issues(e) && e.f.issue.user == user && e.f.issue.client == client {
        IssuanceCapsFamilies(s.db, e.f.issue, s.clock);
      } else {
        NoNewActive(s, e, user, client);
        SubsetCount(ActiveFamilies(t.db, user, client, s.clock), ActiveFamilies(s.db, user, client, s.clock));
      }
    }
  }

  ghost predicate CredentialCap(db: Db) {
    forall user :: |CredentialsOf(db, user)| <= MAXIMUM_CREDENTIALS
  }

  lemma RecoveryCredentials(db: Db, r: Recovery, user: Id)
    requires r.credentialId !in db.credentials && |CredentialsOf(db, user)| <= MAXIMUM_CREDENTIALS
    ensures |CredentialsOf(RecoveryBatch(db, r), user)| <= MAXIMUM_CREDENTIALS
  {
    RecoveryIsCompareAndSet(db, r);
    var after := RecoveryBatch(db, r);
    if AtEpoch(db, r.user, r.version) && user != r.user {
      forall id | id in CredentialsOf(after, user) ensures id in CredentialsOf(db, user) {
        assert id in after.credentials - {r.credentialId};
      }
      SubsetCount(CredentialsOf(after, user), CredentialsOf(db, user));
    }
  }

  lemma ReplacedCredentials(db: Db, owner: Id, id: Id, hash: Id, eligible: bool, user: Id)
    requires |CredentialsOf(db, user)| <= MAXIMUM_CREDENTIALS
    ensures |CredentialsOf(SetUserPassword(db, owner, id, hash, eligible), user)| <= MAXIMUM_CREDENTIALS
  {
    var after := CredentialsOf(SetUserPassword(db, owner, id, hash, eligible), user);
    SubsetCount(after, if owner == user then {id} else CredentialsOf(db, user));
  }

  lemma AddedCredentials(db: Db, owner: Id, id: Id, hash: Id, eligible: bool, user: Id)
    requires |CredentialsOf(db, user)| <= MAXIMUM_CREDENTIALS
    ensures |CredentialsOf(AddUserPassword(db, owner, id, hash, eligible), user)| <= MAXIMUM_CREDENTIALS
  {
    var before, after := CredentialsOf(db, user), CredentialsOf(AddUserPassword(db, owner, id, hash, eligible), user);
    if owner == user && |before| < MAXIMUM_CREDENTIALS {
      SubsetCount(after, before + {id});
    } else {
      SubsetCount(after, before);
    }
  }

  lemma FewerCredentials(db: Db, after: Db, user: Id)
    requires CredentialsEvolve(db.credentials, after.credentials, {})
    requires |CredentialsOf(db, user)| <= MAXIMUM_CREDENTIALS
    ensures |CredentialsOf(after, user)| <= MAXIMUM_CREDENTIALS
  {
    forall id | id in CredentialsOf(after, user) ensures id in CredentialsOf(db, user) {
      assert id in after.credentials;
    }
    SubsetCount(CredentialsOf(after, user), CredentialsOf(db, user));
  }

  /** Only these three login events add a password. */
  predicate AddsPassword(e: Event) {
    e.OnLogin? && (e.l.SetPassword? || e.l.AddPassword? || e.l.Recover?)
  }

  lemma NoCredentialAdded(s: State, e: Event)
    requires IdsKnown(s) && Allowed(s, e) && !AddsPassword(e)
    ensures CredentialsEvolve(s.db.credentials, Transact(s.db, e).credentials, {})
  {
    match e {
      case Tick(_) =>
      case OnUser(u) =>
        UserEventEvolves(s.db, u);
        assert u.Create? ==> UserTransact(s.db, u).credentials == s.db.credentials;
      case OnSession(x) => SessionEventEvolves(s.db, x);
      case OnLogin(l) =>
        LoginEventEvolves(s.db, l);
        assert l.AddPasskey? ==> LoginTransact(s.db, l).credentials == s.db.credentials;
      case OnFamily(f) => FamilyEventEvolves(s.db, f);
    }
  }

  lemma StepKeepsCredentials(s: State, e: Event)
    requires IdsKnown(s) && Allowed(s, e) && CredentialCap(s.db)
    ensures CredentialCap(Transact(s.db, e))
  {
    var db := Transact(s.db, e);
    forall user ensures |CredentialsOf(db, user)| <= MAXIMUM_CREDENTIALS {
      if AddsPassword(e) {
        match e.l {
          case SetPassword(owner, id, hash, eligible) => ReplacedCredentials(s.db, owner, id, hash, eligible, user);
          case AddPassword(owner, id, hash, eligible) => AddedCredentials(s.db, owner, id, hash, eligible, user);
          case Recover(r) => RecoveryCredentials(s.db, r, user);
        }
      } else {
        NoCredentialAdded(s, e);
        FewerCredentials(s.db, db, user);
      }
    }
  }

  // ---- Main results ----------------------------------------------------------

  ghost predicate Inv(s: State) {
    IdsKnown(s) && AllLinked(s.db) && EpochInv(s) && FamilyCap(s) && CredentialCap(s.db)
  }

  lemma StepKeepsInv(s: State, e: Event)
    requires Inv(s) && Allowed(s, e)
    ensures Inv(Apply(s, e))
  {
    StepKeepsIds(s, e);
    StepKeepsLinks(s, e);
    StepKeepsEpochs(s, e);
    StepKeepsCap(s, e);
    StepKeepsCredentials(s, e);
  }

  lemma {:induction false} RunKeepsInv(s: State, events: seq<Event>)
    requires Inv(s) && Run(s, events).Some?
    ensures Inv(Run(s, events).value)
    decreases events
  {
    if events != [] {
      StepKeepsInv(s, events[0]);
      RunKeepsInv(Apply(s, events[0]), events[1..]);
    }
  }

  lemma StartGood()
    ensures Inv(START)
  {
  }

  /** In every run, no live refresh family is attached to a revoked or missing session. */
  lemma NoLiveFamilyOnRevokedSession(events: seq<Event>, f: Id)
    requires Run(START, events).Some? && f in Run(START, events).value.db.families
    ensures var db := Run(START, events).value.db;
            var family := db.families[f];
            family.revokedAt.None? && family.sessionId.Some? ==>
              && family.sessionId.value in db.sessions
              && db.sessions[family.sessionId.value].revokedAt.None?
              && db.sessions[family.sessionId.value].userId == family.userId
  {
    StartGood();
    RunKeepsInv(START, events);
  }

  /** In every run, each (user, epoch) sees at most one successful recovery. */
  lemma OneRecoveryPerEpoch(events: seq<Event>, i: nat, j: nat)
    requires Run(START, events).Some? && i < j < |Run(START, events).value.recovered|
    ensures var log := Run(START, events).value.recovered; log[i] != log[j]
  {
    StartGood();
    RunKeepsInv(START, events);
  }

  /** After a recovery, capabilities of that or an older epoch are dead: no session, no password. */
  lemma OldCapabilitiesAreDead(events: seq<Event>, i: nat, version: int, r: Recovery,
                               id: Id, tokenHash: Id, expiresAt: int)
    requires Run(START, events).Some? && i < |Run(START, events).value.recovered|
    requires var (user, epoch) := Run(START, events).value.recovered[i];
             version <= epoch && r.user == user && r.version == version
    requires r.credentialId !in Run(START, events).value.db.credentials
    ensures var db := Run(START, events).value.db;
            && CreateSessionAtSecurityVersion(db, id, r.user, tokenHash, expiresAt, version) == db
            && RecoveryBatch(db, r) == db
  {
    StartGood();
    RunKeepsInv(START, events);
    var s := Run(START, events).value;
    assert s.recovered[i] in s.recovered;
    RecoveryIsCompareAndSet(s.db, r);
  }

  /** In every run and at every moment, no user has more than 20 active families with one client. */
  lemma FamiliesAlwaysCapped(events: seq<Event>, user: Id, client: Id)
    requires Run(START, events).Some?
    ensures var s := Run(START, events).value;
            |ActiveFamilies(s.db, user, client, s.clock)| <= 20
  {
    StartGood();
    RunKeepsInv(START, events);
  }

  /** An answer to SELECT ... FROM password_credentials WHERE user_id = user ORDER BY created_at LIMIT 5. */
  predicate PasswordRows(db: Db, user: Id, rows: set<Id>) {
    rows <= CredentialsOf(db, user) && |rows| == Min(MAXIMUM_CREDENTIALS, |CredentialsOf(db, user)|)
  }

  /** In every run a user has at most 5 passwords, so a login, which reads at most 5 rows, reads them all. */
  lemma PasswordsAlwaysCapped(events: seq<Event>, user: Id, rows: set<Id>)
    requires Run(START, events).Some?
    ensures |CredentialsOf(Run(START, events).value.db, user)| <= 5
    ensures PasswordRows(Run(START, events).value.db, user, rows) ==>
              rows == CredentialsOf(Run(START, events).value.db, user)
  {
    StartGood();
    RunKeepsInv(START, events);
    if PasswordRows(Run(START, events).value.db, user, rows) {
      SubsetCount(rows, CredentialsOf(Run(START, events).value.db, user));
    }
  }

  // ---- The last login method ---------------------------------------------------

  /** The account, unless it was deleted, has a password or a passkey. */
  predicate CanLogIn(s: State, user: Id) {
    user in s.issued && (user in s.db.users ==> HasLoginMethod(s.db, user))
  }

  lemma KeepsMethods(db: Db, after: Db, user: Id)
    requires HasLoginMethod(db, user)
    requires CredentialsOf(db, user) <= CredentialsOf(after, user) && PasskeysOf(db, user) <= PasskeysOf(after, user)
    ensures HasLoginMethod(after, user)
  {
  }

  lemma HasMethod(db: Db, user: Id, id: Id)
    requires id in CredentialsOf(db, user) || id in PasskeysOf(db, user)
    ensures HasLoginMethod(db, user)
  {
  }

  /** The guarded deletes keep a method of every user, the guard being another method of the same user. */
  lemma DeletePasswordKeepsMethod(db: Db, id: Id, owner: Id, user: Id)
    requires HasLoginMethod(db, user)
    ensures HasLoginMethod(DeletePassword(db, id, owner), user)
  {
    var after := DeletePassword(db, id, owner);
    assert PasskeysOf(after, user) == PasskeysOf(db, user);
    assert CredentialsOf(after, user) >= CredentialsOf(db, user) - {id};
    if user != owner {
      assert CredentialsOf(after, user) == CredentialsOf(db, user);
    }
  }

  lemma DeletePasskeyKeepsMethod(db: Db, id: Id, owner: Id, user: Id)
    requires HasLoginMethod(db, user)
    ensures HasLoginMethod(DeletePasskey(db, id, owner), user)
  {
    var after := DeletePasskey(db, id, owner);
    assert CredentialsOf(after, user) == CredentialsOf(db, user);
    assert PasskeysOf(after, user) >= PasskeysOf(db, user) - {id};
    if user != owner {
      assert PasskeysOf(after, user) == PasskeysOf(db, user);
    }
  }

  /** Replacing all passwords leaves the new one. */
  lemma ReplacedKeepsMethod(db: Db, owner: Id, id: Id, hash: Id, eligible: bool, user: Id)
    requires user in db.users && HasLoginMethod(db, user) && id !in db.credentials
    ensures HasLoginMethod(SetUserPassword(db, owner, id, hash, eligible), user)
  {
    var after := SetUserPassword(db, owner, id, hash, eligible);
    if owner == user {
      HasMethod(after, user, id);
    } else {
      KeepsMethods(db, after, user);
    }
  }

  lemma RecoveryKeepsMethod(db: Db, r: Recovery, user: Id)
    requires HasLoginMethod(db, user) && r.credentialId !in db.credentials
    ensures HasLoginMethod(RecoveryBatch(db, r), user)
  {
    RecoveryIsCompareAndSet(db, r);
    var after := RecoveryBatch(db, r);
    if AtEpoch(db, r.user, r.version) {
      if user == r.user {
        HasMethod(after, user, r.credentialId);
      } else {
        forall id | id in CredentialsOf(db, user) ensures id in CredentialsOf(after, user) {
          assert id in db.credentials - CredentialsOf(db, r.user);
        }
        KeepsMethods(db, after, user);
      }
    }
  }

  lemma AddingKeepsMethod(db: Db, e: LoginEvent, user: Id)
    requires (e.AddPassword? || e.AddPasskey?) && HasLoginMethod(db, user)
    requires NewLogin(e) !! db.credentials.Keys && NewLogin(e) !! db.passkeys.Keys
    ensures HasLoginMethod(LoginTransact(db, e), user)
  {
    KeepsMethods(db, LoginTransact(db, e), user);
  }

  lemma LoginEventKeepsMethod(db: Db, e: LoginEvent, user: Id)
    requires user in db.users && HasLoginMethod(db, user)
    requires NewLogin(e) !! db.credentials.Keys && NewLogin(e) !! db.passkeys.Keys
    ensures HasLoginMethod(LoginTransact(db, e), user)
  {
    match e {
      case SetPassword(owner, id, hash, eligible) => ReplacedKeepsMethod(db, owner, id, hash, eligible, user);
      case AddPassword(_, _, _, _) => AddingKeepsMethod(db, e, user);
      case Recover(r) => RecoveryKeepsMethod(db, r, user);
      case AddPasskey(_, _) => AddingKeepsMethod(db, e, user);
      case RemovePassword(id, owner) => DeletePasswordKeepsMethod(db, id, owner, user);
      case RemovePasskey(id, owner) => DeletePasskeyKeepsMethod(db, id, owner, user);
    }
  }

  lemma UserEventKeepsMethod(db: Db, e: UserEvent, user: Id)
    requires HasLoginMethod(db, user) && user in UserTransact(db, e).users
    ensures HasLoginMethod(UserTransact(db, e), user)
  {
    KeepsMethods(db, UserTransact(db, e), user);
  }

  lemma OtherEventKeepsMethod(db: Db, e: Event, user: Id)
    requires (e.Tick? || e.OnSession? || e.OnFamily?) && HasLoginMethod(db, user)
    ensures HasLoginMethod(Transact(db, e), user)
  {
  }

  lemma StepKeepsMethod(s: State, e: Event, user: Id)
    requires IdsKnown(s) && Allowed(s, e) && CanLogIn(s, user)
    ensures CanLogIn(Apply(s, e), user)
  {
    if user in Transact(s.db, e).users {
      StepEvolves(s, e);
      assert user in s.db.users;
      if e.OnLogin? {
        LoginEventKeepsMethod(s.db, e.l, user);
      } else if e.OnUser? {
        UserEventKeepsMethod(s.db, e.u, user);
      } else {
        OtherEventKeepsMethod(s.db, e, user);
      }
    }
  }

  /**
   In every continuation of every run, whatever deletes, replacements and recoveries interleave, an
   account that has a login method keeps one for as long as it exists.
   */
  lemma {:induction false} LastLoginMethodIsKept(s: State, events: seq<Event>, user: Id)
    requires IdsKnown(s) && CanLogIn(s, user) && Run(s, events).Some?
    ensures CanLogIn(Run(s, events).value, user)
    decreases events
  {
    if events != [] {
      StepKeepsMethod(s, events[0], user);
      StepKeepsIds(s, events[0]);
      LastLoginMethodIsKept(Apply(s, events[0]), events[1..], user);
    }
  }

  /** Neither this session nor this family is live. */
  predicate SessionDead(s: State, id: Id) {
    id in s.issued && (id in s.db.sessions ==> s.db.sessions[id].revokedAt.Some?)
  }

  predicate FamilyDead(s: State, id: Id) {
    id in s.issued && (id in s.db.families ==> s.db.families[id].revokedAt.Some?)
  }

  lemma SessionDeadStep(s: State, e: Event, id: Id)
    requires IdsKnown(s) && Allowed(s, e) && SessionDead(s, id)
    ensures SessionDead(Apply(s, e), id)
  {
    StepEvolves(s, e);
  }

  lemma FamilyDeadStep(s: State, e: Event, id: Id)
    requires IdsKnown(s) && Allowed(s, e) && FamilyDead(s, id)
    ensures FamilyDead(Apply(s, e), id)
  {
    StepEvolves(s, e);
  }

  /** Revocation is final: in no continuation does a revoked session or family become live again. */
  lemma {:induction false} RevocationIsFinal(s: State, events: seq<Event>, id: Id)
    requires IdsKnown(s) && Run(s, events).Some?
    ensures SessionDead(s, id) ==> SessionDead(Run(s, events).value, id)
    ensures FamilyDead(s, id) ==> FamilyDead(Run(s, events).value, id)
    decreases events
  {
    if events != [] {
      if SessionDead(s, id) {
        SessionDeadStep(s, events[0], id);
      }
      if FamilyDead(s, id) {
        FamilyDeadStep(s, events[0], id);
      }
      StepKeepsIds(s, events[0]);
      RevocationIsFinal(Apply(s, events[0]), events[1..], id);
    }
  }
}
