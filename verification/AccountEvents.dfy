/**
 The account transactions as events, grouped by what they are about, and what every one of them
 does to the tables: rows appear only under fresh identifiers, epochs never go back, and a revoked
 row stays revoked.
 */
module AccountEvents {
  import opened Accounts
  import opened AccountTheorems

  /** Of the environment: account creation and deletion, and status changes that may revoke everything. */
  datatype UserEvent =
    | Create(user: Id)
    | Transition(user: Id, disabled: bool, advance: nat, revoke: bool, now: int)
    | Remove(user: Id)

  datatype SessionEvent =
    | New(id: Id, user: Id, tokenHash: Id, expiresAt: int)
    | NewAt(id: Id, user: Id, tokenHash: Id, expiresAt: int, version: int)
    | LogOut(tokenHash: Id, now: int)
    | LogOutAll(user: Id, now: int)
    | LogOutOne(session: Id, user: Id, now: int)
    | LogOutOthers(user: Id, keep: Id, now: int)
    | PurgeSessions(ids: set<Id>)

  datatype LoginEvent =
    | SetPassword(user: Id, id: Id, hash: Id, adminEligible: bool)
    | AddPassword(user: Id, id: Id, hash: Id, adminEligible: bool)
    | Recover(recovery: Recovery)
    | AddPasskey(id: Id, user: Id)
    | RemovePassword(id: Id, user: Id)
    | RemovePasskey(id: Id, user: Id)

  datatype FamilyEvent =
    | IssueFamily(issue: Issue)
    | RevokeSome(ids: set<Id>, now: int)
    | PurgeFamilies(ids: set<Id>)

  datatype Event =
    | Tick(seconds: nat)
    | OnUser(u: UserEvent)
    | OnSession(x: SessionEvent)
    | OnLogin(l: LoginEvent)
    | OnFamily(f: FamilyEvent)

  /** A change of a user's status elsewhere: the epoch never goes back, and it may revoke everything. */
  function TransitionStep(db: Db, user: Id, disabled: bool, advance: nat, revoke: bool, now: int): Db {
    if user !in db.users then db
    else
      var u := db.users[user].(disabled := disabled, securityVersion := db.users[user].securityVersion + advance);
      var db1 := db.(users := db.users[user := u]);
      if revoke then RevokeAllUserSessions(db1, user, now) else db1
  }

  function UserTransact(db: Db, e: UserEvent): Db {
    match e
    case Create(user) => db.(users := db.users[user := User(false, 0, false)])
    case Transition(user, disabled, advance, revoke, now) => TransitionStep(db, user, disabled, advance, revoke, now)
    case Remove(user) => DeleteUser(db, user)
  }

  function SessionTransact(db: Db, e: SessionEvent): Db {
    match e
    case New(id, user, hash, expiresAt) => CreateSession(db, id, user, hash, expiresAt)
    case NewAt(id, user, hash, expiresAt, version) =>
      CreateSessionAtSecurityVersion(db, id, user, hash, expiresAt, version)
    case LogOut(hash, now) => RevokeSessionByToken(db, hash, now)
    case LogOutAll(user, now) => RevokeAllUserSessions(db, user, now)
    case LogOutOne(session, user, now) => RevokeSessionById(db, session, user, now)
    case LogOutOthers(user, keep, now) => RevokeOtherUserSessions(db, user, keep, now)
    case PurgeSessions(ids) => DeleteSessions(db, ids)
  }

  function LoginTransact(db: Db, e: LoginEvent): Db {
    match e
    case SetPassword(user, id, hash, eligible) => SetUserPassword(db, user, id, hash, eligible)
    case AddPassword(user, id, hash, eligible) => AddUserPassword(db, user, id, hash, eligible)
    case Recover(r) => RecoveryBatch(db, r)
    case AddPasskey(id, user) => InsertPasskey(db, id, user)
    case RemovePassword(id, user) => DeletePassword(db, id, user)
    case RemovePasskey(id, user) => DeletePasskey(db, id, user)
  }

  function FamilyTransact(db: Db, e: FamilyEvent): Db {
    match e
    case IssueFamily(i) => IssueBatch(db, i)
    case RevokeSome(ids, now) => db.(families := RevokeFamilies(db.families, ids, now))
    case PurgeFamilies(ids) => db.(families := db.families - ids)
  }

  function Transact(db: Db, e: Event): Db {
    match e
    case Tick(_) => db
    case OnUser(u) => UserTransact(db, u)
    case OnSession(x) => SessionTransact(db, x)
    case OnLogin(l) => LoginTransact(db, l)
    case OnFamily(f) => FamilyTransact(db, f)
  }

  /** The identifier an event generates, if any. */
  function NewUser(e: UserEvent): set<Id> {
    if e.Create? then {e.user} else {}
  }

  function NewSession(e: SessionEvent): set<Id> {
    if e.New? || e.NewAt? then {e.id} else {}
  }

  function NewLogin(e: LoginEvent): set<Id> {
    if e.SetPassword? || e.AddPassword? || e.AddPasskey? then {e.id}
    else if e.Recover? then {e.recovery.credentialId}
    else {}
  }

  function NewFamily(e: FamilyEvent): set<Id> {
    if e.IssueFamily? then {e.issue.id} else {}
  }

  function NewIds(e: Event): set<Id> {
    match e
    case Tick(_) => {}
    case OnUser(u) => NewUser(u)
    case OnSession(x) => NewSession(x)
    case OnLogin(l) => NewLogin(l)
    case OnFamily(f) => NewFamily(f)
  }

  predicate Issues(e: Event) {
    e.OnFamily? && e.f.IssueFamily?
  }

  predicate Recovers(e: Event) {
    e.OnLogin? && e.l.Recover?
  }

  // ---- How tables evolve -------------------------------------------------------

  ghost predicate UsersEvolve(before: map<Id, User>, after: map<Id, User>, added: set<Id>) {
    forall u :: u in after ==> u in added || (u in before && before[u].securityVersion <= after[u].securityVersion)
  }

  /** The same session, perhaps revoked since. */
  predicate SessionLater(a: Session, b: Session) {
    b.userId == a.userId && (a.revokedAt.Some? ==> b == a)
  }

  ghost predicate SessionsEvolve(before: map<Id, Session>, after: map<Id, Session>, added: set<Id>) {
    forall x :: x in after ==> x in added || (x in before && SessionLater(before[x], after[x]))
  }

  /** The same family, perhaps revoked or detached from a deleted session since. */
  predicate FamilyLater(a: Family, b: Family) {
    && b.userId == a.userId && b.clientId == a.clientId && b.expiresAt == a.expiresAt
    && (a.revokedAt.Some? ==> b.revokedAt.Some?)
    && (b.sessionId == a.sessionId || b.sessionId.None?)
  }

  ghost predicate FamiliesEvolve(before: map<Id, Family>, after: map<Id, Family>, added: set<Id>) {
    forall f :: f in after ==> f in added || (f in before && FamilyLater(before[f], after[f]))
  }

  ghost predicate CredentialsEvolve(before: map<Id, Credential>, after: map<Id, Credential>, added: set<Id>) {
    forall c :: c in after ==> c in added || (c in before && after[c] == before[c])
  }

  ghost predicate PasskeysEvolve(before: map<Id, Passkey>, after: map<Id, Passkey>, added: set<Id>) {
    forall p :: p in after ==> p in added || (p in before && after[p] == before[p])
  }

  ghost predicate AccountsEvolve(before: Db, after: Db, added: set<Id>) {
    && UsersEvolve(before.users, after.users, added)
    && CredentialsEvolve(before.credentials, after.credentials, added)
    && PasskeysEvolve(before.passkeys, after.passkeys, added)
  }

  /** A family loses its session only when that session is deleted. */
  ghost predicate Attached(before: Db, after: Db) {
    forall f :: f in before.families && f in after.families && before.families[f].sessionId.Some? ==>
      || after.families[f].sessionId == before.families[f].sessionId
      || before.families[f].sessionId.value !in after.sessions
  }

  ghost predicate AccessEvolves(before: Db, after: Db, added: set<Id>, issued: set<Id>) {
    && SessionsEvolve(before.sessions, after.sessions, added)
    && FamiliesEvolve(before.families, after.families, issued)
  }

  /** What an UPDATE that revokes does to a table. */
  lemma RevokingEvolves(db: Db, sessions: set<Id>, families: set<Id>, now: int)
    ensures SessionsEvolve(db.sessions, RevokeSessions(db.sessions, sessions, now), {})
    ensures FamiliesEvolve(db.families, RevokeFamilies(db.families, families, now), {})
  {
  }

  lemma TransitionEvolves(db: Db, user: Id, disabled: bool, advance: nat, revoke: bool, now: int)
    ensures AccountsEvolve(db, TransitionStep(db, user, disabled, advance, revoke, now), {})
    ensures AccessEvolves(db, TransitionStep(db, user, disabled, advance, revoke, now), {}, {})
  {
    RevokingEvolves(db, SessionsOf(db, user), FamiliesOf(db, user), now);
  }

  lemma RemovalEvolves(db: Db, user: Id)
    ensures AccountsEvolve(db, DeleteUser(db, user), {}) && AccessEvolves(db, DeleteUser(db, user), {}, {})
  {
  }

  lemma UserEventEvolves(db: Db, e: UserEvent)
    ensures AccountsEvolve(db, UserTransact(db, e), NewUser(e)) && AccessEvolves(db, UserTransact(db, e), {}, {})
  {
    match e {
      case Create(_) =>
      case Transition(user, disabled, advance, revoke, now) =>
        TransitionEvolves(db, user, disabled, advance, revoke, now);
      case Remove(user) => RemovalEvolves(db, user);
    }
  }

  lemma SessionEventEvolves(db: Db, e: SessionEvent)
    ensures AccountsEvolve(db, SessionTransact(db, e), {})
    ensures AccessEvolves(db, SessionTransact(db, e), NewSession(e), {})
  {
  }

  lemma RecoveryEvolves(db: Db, r: Recovery)
    requires r.credentialId !in db.credentials
    ensures AccountsEvolve(db, RecoveryBatch(db, r), {r.credentialId})
    ensures AccessEvolves(db, RecoveryBatch(db, r), {}, {})
  {
    RecoveryIsCompareAndSet(db, r);
    var after := RecoveryBatch(db, r);
    if AtEpoch(db, r.user, r.version) {
      forall c | c in after.credentials && c != r.credentialId
        ensures c in db.credentials && after.credentials[c] == db.credentials[c]
      {
        assert c in after.credentials - {r.credentialId};
      }
    }
  }

  lemma ReplacingEvolves(db: Db, user: Id, id: Id, hash: Id, eligible: bool)
    ensures AccountsEvolve(db, SetUserPassword(db, user, id, hash, eligible), {id})
    ensures AccessEvolves(db, SetUserPassword(db, user, id, hash, eligible), {}, {})
  {
  }

  lemma AddingEvolves(db: Db, user: Id, id: Id, hash: Id, eligible: bool)
    ensures AccountsEvolve(db, AddUserPassword(db, user, id, hash, eligible), {id})
    ensures AccessEvolves(db, AddUserPassword(db, user, id, hash, eligible), {}, {})
  {
  }

  lemma PasswordDeletionEvolves(db: Db, id: Id, user: Id)
    ensures AccountsEvolve(db, DeletePassword(db, id, user), {})
    ensures AccessEvolves(db, DeletePassword(db, id, user), {}, {})
  {
  }

  lemma PasskeyDeletionEvolves(db: Db, id: Id, user: Id)
    ensures AccountsEvolve(db, DeletePasskey(db, id, user), {})
    ensures AccessEvolves(db, DeletePasskey(db, id, user), {}, {})
  {
  }

  lemma LoginEventEvolves(db: Db, e: LoginEvent)
    requires NewLogin(e) !! db.credentials.Keys
    ensures AccountsEvolve(db, LoginTransact(db, e), NewLogin(e)) && AccessEvolves(db, LoginTransact(db, e), {}, {})
  {
    match e {
      case SetPassword(user, id, hash, eligible) => ReplacingEvolves(db, user, id, hash, eligible);
      case AddPassword(user, id, hash, eligible) => AddingEvolves(db, user, id, hash, eligible);
      case Recover(r) => RecoveryEvolves(db, r);
      case AddPasskey(_, _) =>
      case RemovePassword(id, user) => PasswordDeletionEvolves(db, id, user);
      case RemovePasskey(id, user) => PasskeyDeletionEvolves(db, id, user);
    }
  }

  lemma FamilyEventEvolves(db: Db, e: FamilyEvent)
    ensures AccountsEvolve(db, FamilyTransact(db, e), {})
    ensures AccessEvolves(db, FamilyTransact(db, e), {}, NewFamily(e))
  {
  }

  lemma SessionEventAttached(db: Db, e: SessionEvent)
    ensures Attached(db, SessionTransact(db, e))
  {
  }

  lemma FamilyEventAttached(db: Db, e: FamilyEvent)
    requires NewFamily(e) !! db.families.Keys
    ensures Attached(db, FamilyTransact(db, e))
  {
  }

  lemma LoginEventAttached(db: Db, e: LoginEvent)
    requires NewLogin(e) !! db.credentials.Keys
    ensures Attached(db, LoginTransact(db, e))
  {
    if e.Recover? {
      RecoveryIsCompareAndSet(db, e.recovery);
    }
  }

  lemma UserEventAttached(db: Db, e: UserEvent)
    ensures Attached(db, UserTransact(db, e))
  {
  }
}
