/**
 The D1 tables behind accounts, and the statements and batches that change them: sessions
 (src/auth/session.ts), passwords (src/auth/password.ts) and refresh-family issuance
 (src/tokens/refresh-token.ts). A batch is one transaction; its statements run in order, each with
 its own WHERE clause.
 */
module Accounts {
  import opened Wrappers
  import opened Selection

  type Id = int

  datatype User = User(disabled: bool, securityVersion: int, emailVerified: bool)
  datatype Credential = Credential(userId: Id, passwordHash: Id, adminEligible: bool)
  datatype Passkey = Passkey(userId: Id)
  datatype Session = Session(userId: Id, tokenHash: Id, expiresAt: int, revokedAt: Option<int>)
  datatype Family = Family(
    userId: Id, clientId: Id, sessionId: Option<Id>, createdAt: int, expiresAt: int, revokedAt: Option<int>)

  datatype Db = Db(
    users: map<Id, User>,
    credentials: map<Id, Credential>,
    passkeys: map<Id, Passkey>,
    sessions: map<Id, Session>,
    families: map<Id, Family>)

  const MAXIMUM_CREDENTIALS := 5
  const MAXIMUM_ACTIVE_FAMILIES := 20

  // ---- Row updates -----------------------------------------------------------

  /** UPDATE sessions SET revoked_at = now WHERE id IN which AND revoked_at IS NULL. */
  function RevokeSessions(sessions: map<Id, Session>, which: set<Id>, now: int): map<Id, Session> {
    map id | id in sessions ::
      if id in which && sessions[id].revokedAt.None? then sessions[id].(revokedAt := Some(now)) else sessions[id]
  }

  /** UPDATE refresh_tokens SET revoked_at = now WHERE id IN which AND revoked_at IS NULL. */
  function RevokeFamilies(families: map<Id, Family>, which: set<Id>, now: int): map<Id, Family> {
    map id | id in families ::
      if id in which && families[id].revokedAt.None? then families[id].(revokedAt := Some(now)) else families[id]
  }

  function SessionsOf(db: Db, user: Id): set<Id> {
    set id | id in db.sessions && db.sessions[id].userId == user
  }

  function FamiliesOf(db: Db, user: Id): set<Id> {
    set id | id in db.families && db.families[id].userId == user
  }

  function CredentialsOf(db: Db, user: Id): set<Id> {
    set id | id in db.credentials && db.credentials[id].userId == user
  }

  function PasskeysOf(db: Db, user: Id): set<Id> {
    set id | id in db.passkeys && db.passkeys[id].userId == user
  }

  function FamiliesOnSessions(db: Db, sessions: set<Id>): set<Id> {
    set id | id in db.families && db.families[id].sessionId.Some? && db.families[id].sessionId.value in sessions
  }

  // ---- Sessions --------------------------------------------------------------

  predicate Enabled(db: Db, user: Id) {
    user in db.users && !db.users[user].disabled
  }

  function CreateSession(db: Db, id: Id, user: Id, tokenHash: Id, expiresAt: int): Db {
    if !Enabled(db, user) then db
    else db.(sessions := db.sessions[id := Session(user, tokenHash, expiresAt, None)])
  }

  /** The security epoch of the capability is still the user's, and the account is enabled. */
  predicate AtEpoch(db: Db, user: Id, version: int) {
    Enabled(db, user) && db.users[user].securityVersion == version
  }

  function CreateSessionAtSecurityVersion(db: Db, id: Id, user: Id, tokenHash: Id, expiresAt: int, version: int): Db {
    if !AtEpoch(db, user, version) then db
    else db.(sessions := db.sessions[id := Session(user, tokenHash, expiresAt, None)])
  }

  function RevokeSessionByToken(db: Db, tokenHash: Id, now: int): Db {
    var ids := set id | id in db.sessions && db.sessions[id].tokenHash == tokenHash;
    var db1 := db.(sessions := RevokeSessions(db.sessions, ids, now));
    db1.(families := RevokeFamilies(db1.families, FamiliesOnSessions(db1, ids), now))
  }

  function RevokeAllUserSessions(db: Db, user: Id, now: int): Db {
    var db1 := db.(sessions := RevokeSessions(db.sessions, SessionsOf(db, user), now));
    db1.(families := RevokeFamilies(db1.families, FamiliesOf(db1, user), now))
  }

  function RevokeSessionById(db: Db, session: Id, user: Id, now: int): Db {
    var ids := if session in db.sessions && db.sessions[session].userId == user then {session} else {};
    var db1 := db.(sessions := RevokeSessions(db.sessions, ids, now));
    db1.(families := RevokeFamilies(db1.families, FamiliesOnSessions(db1, ids), now))
  }

  function RevokeOtherUserSessions(db: Db, user: Id, keep: Id, now: int): Db {
    var db1 := db.(sessions := RevokeSessions(db.sessions, SessionsOf(db, user) - {keep}, now));
    db1.(families := RevokeFamilies(db1.families, FamiliesOf(db1, user) - FamiliesOnSessions(db1, {keep}), now))
  }

  // ---- Passwords -------------------------------------------------------------

  datatype Recovery = Recovery(
    user: Id, credentialId: Id, passwordHash: Id, adminEligible: bool, version: int, verifyEmail: bool, now: int)

  function NewCredential(r: Recovery): Credential {
    Credential(r.user, r.passwordHash, r.adminEligible)
  }

  /** Statement 1: DELETE the old credentials while the epoch is current. */
  function RecoveryDelete(db: Db, r: Recovery): Db {
    if AtEpoch(db, r.user, r.version) then db.(credentials := db.credentials - CredentialsOf(db, r.user)) else db
  }

  /** Statement 2: INSERT ... SELECT the new credential while the epoch is current. */
  function RecoveryInsert(db: Db, r: Recovery): Db {
    if AtEpoch(db, r.user, r.version) then db.(credentials := db.credentials[r.credentialId := NewCredential(r)])
    else db
  }

  predicate HasNewCredential(db: Db, r: Recovery) {
    r.credentialId in db.credentials && db.credentials[r.credentialId].userId == r.user
  }

  /** Statement 3: advance the epoch if the new credential is there. */
  function RecoveryAdvance(db: Db, r: Recovery): Db {
    if AtEpoch(db, r.user, r.version) && HasNewCredential(db, r) then
      var u := db.users[r.user];
      db.(users := db.users[r.user :=
            u.(securityVersion := u.securityVersion + 1, emailVerified := r.verifyEmail || u.emailVerified)])
    else db
  }

  /** The subquery of statements 4 and 5: the user at the next epoch joined with the new credential. */
  predicate Advanced(db: Db, r: Recovery) {
    r.user in db.users && db.users[r.user].securityVersion == r.version + 1 && HasNewCredential(db, r)
  }

  /** Statement 4: revoke the user's sessions. */
  function RecoveryRevokeSessions(db: Db, r: Recovery): Db {
    if Advanced(db, r) then db.(sessions := RevokeSessions(db.sessions, SessionsOf(db, r.user), r.now)) else db
  }

  /** Statement 5: revoke the user's refresh families. */
  function RecoveryRevokeFamilies(db: Db, r: Recovery): Db {
    if Advanced(db, r) then db.(families := RevokeFamilies(db.families, FamiliesOf(db, r.user), r.now)) else db
  }

  /** The five statements of `setUserPasswordAtSecurityVersion`, in order. */
  function RecoveryBatch(db: Db, r: Recovery): Db {
    RecoveryRevokeFamilies(
      RecoveryRevokeSessions(RecoveryAdvance(RecoveryInsert(RecoveryDelete(db, r), r), r), r), r)
  }

  function Bump(users: map<Id, User>, user: Id): map<Id, User> {
    if user in users then users[user := users[user].(securityVersion := users[user].securityVersion + 1)] else users
  }

  function SetUserPassword(db: Db, user: Id, id: Id, hash: Id, adminEligible: bool): Db {
    var rest := db.credentials - CredentialsOf(db, user);
    db.(credentials := if user in db.users then rest[id := Credential(user, hash, adminEligible)] else rest,
        users := Bump(db.users, user))
  }

  function AddUserPassword(db: Db, user: Id, id: Id, hash: Id, adminEligible: bool): Db {
    var db1 :=
      if Enabled(db, user) && |CredentialsOf(db, user)| < MAXIMUM_CREDENTIALS then
        db.(credentials := db.credentials[id := Credential(user, hash, adminEligible)])
      else db;
    if id in db1.credentials && db1.credentials[id].userId == user then db1.(users := Bump(db1.users, user)) else db1
  }

  // ---- Login methods -----------------------------------------------------------

  /** The user has a password or a passkey. */
  predicate HasLoginMethod(db: Db, user: Id) {
    CredentialsOf(db, user) != {} || PasskeysOf(db, user) != {}
  }

  /** INSERT INTO webauthn_credentials; the foreign key refuses an unknown user. */
  function InsertPasskey(db: Db, id: Id, user: Id): Db {
    if user in db.users then db.(passkeys := db.passkeys[id := Passkey(user)]) else db
  }

  /** DELETE a password while another password or any passkey of the user remains. */
  function DeletePassword(db: Db, id: Id, user: Id): Db {
    if id in CredentialsOf(db, user) && (CredentialsOf(db, user) - {id} != {} || PasskeysOf(db, user) != {})
    then db.(credentials := db.credentials - {id}) else db
  }

  /** DELETE a passkey while any password or another passkey of the user remains. */
  function DeletePasskey(db: Db, id: Id, user: Id): Db {
    if id in PasskeysOf(db, user) && (CredentialsOf(db, user) != {} || PasskeysOf(db, user) - {id} != {})
    then db.(passkeys := db.passkeys - {id}) else db
  }

  datatype DeleteResult = Deleted | NotFound | LastLoginMethod

  // ---- Refresh families ------------------------------------------------------

  datatype Issue = Issue(id: Id, user: Id, client: Id, session: Option<Id>, now: int, expiresAt: int)

  predicate IssueGuard(db: Db, i: Issue) {
    if i.session.None? then Enabled(db, i.user)
    else
      && i.session.value in db.sessions
      && db.sessions[i.session.value].userId == i.user
      && db.sessions[i.session.value].revokedAt.None?
      && db.sessions[i.session.value].expiresAt > i.now
      && Enabled(db, i.user)
  }

  predicate Active(f: Family, user: Id, client: Id, at: int) {
    f.userId == user && f.clientId == client && f.revokedAt.None? && f.expiresAt > at
  }

  function ActiveFamilies(db: Db, user: Id, client: Id, at: int): set<Id> {
    set id | id in db.families && Active(db.families[id], user, client, at)
  }

  /** The families the prune statement orders, oldest first: all active ones but the new one. */
  function PruneCandidates(db: Db, i: Issue): set<Entry> {
    set id | id in ActiveFamilies(db, i.user, i.client, i.now) && id != i.id :: Entry(db.families[id].createdAt, id)
  }

  function Excess(db: Db, i: Issue): nat {
    var count := |ActiveFamilies(db, i.user, i.client, i.now)|;
    if count > MAXIMUM_ACTIVE_FAMILIES then count - MAXIMUM_ACTIVE_FAMILIES else 0
  }

  function Pruned(db: Db, i: Issue): set<Id> {
    if i.id in db.families && db.families[i.id].revokedAt.None? then Keys(First(PruneCandidates(db, i), Excess(db, i)))
    else {}
  }

  function IssueInsert(db: Db, i: Issue): Db {
    if IssueGuard(db, i) then
      db.(families := db.families[i.id := Family(i.user, i.client, i.session, i.now, i.expiresAt, None)])
    else db
  }

  /** The guarded insert and the prune, one transaction. */
  function IssueBatch(db: Db, i: Issue): Db {
    var db1 := IssueInsert(db, i);
    db1.(families := RevokeFamilies(db1.families, Pruned(db1, i), i.now))
  }

  // ---- Deletions -------------------------------------------------------------

  /** Cleanup of session rows; the foreign key sets the families' session to NULL. */
  function DeleteSessions(db: Db, ids: set<Id>): Db {
    db.(sessions := db.sessions - ids,
        families := map id | id in db.families ::
          if db.families[id].sessionId.Some? && db.families[id].sessionId.value in ids
          then db.families[id].(sessionId := None) else db.families[id])
  }

  /** Deleting a user cascades to the rows that reference it. */
  function DeleteUser(db: Db, user: Id): Db {
    Db(db.users - {user},
       db.credentials - CredentialsOf(db, user),
       db.passkeys - PasskeysOf(db, user),
       db.sessions - SessionsOf(db, user),
       db.families - FamiliesOf(db, user))
  }
}
