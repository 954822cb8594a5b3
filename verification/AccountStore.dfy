/**
 The account transactions as methods that update the tables statement by statement
 (src/auth/session.ts, src/auth/password.ts, src/tokens/refresh-token.ts). Each is proved to have
 exactly the effect of its specification, and returns what its caller learns.
 */
module AccountStore {
  import opened Wrappers
  import opened Accounts
  import opened AccountTheorems

  class Database {
    var users: map<Id, User>
    var credentials: map<Id, Credential>
    var passkeys: map<Id, Passkey>
    var sessions: map<Id, Session>
    var families: map<Id, Family>

    ghost function View(): Db
      reads this
    {
      Db(users, credentials, passkeys, sessions, families)
    }

    constructor (db: Db)
      ensures View() == db
    {
      users, credentials, passkeys := db.users, db.credentials, db.passkeys;
      sessions, families := db.sessions, db.families;
    }

    /** The families that an UPDATE ... RETURNING id would report: those it revokes now. */
    method RevokeFamilyRows(which: set<Id>, now: int) returns (revoked: set<Id>)
      modifies this`families
      ensures families == RevokeFamilies(old(families), which, now)
      ensures revoked == set id | id in which && id in old(families) && old(families)[id].revokedAt.None?
    {
      revoked := set id | id in which && id in families && families[id].revokedAt.None?;
      families := map id | id in families ::
        if id in revoked then families[id].(revokedAt := Some(now)) else families[id];
    }

    method RevokeSessionRows(which: set<Id>, now: int) returns (changes: nat)
      modifies this`sessions
      ensures sessions == RevokeSessions(old(sessions), which, now)
      ensures changes == |set id | id in which && id in old(sessions) && old(sessions)[id].revokedAt.None?|
    {
      var revoked := set id | id in which && id in sessions && sessions[id].revokedAt.None?;
      sessions := map id | id in sessions ::
        if id in revoked then sessions[id].(revokedAt := Some(now)) else sessions[id];
      changes := |revoked|;
    }

    /** INSERT ... SELECT FROM users WHERE ...; `None` stands for the error of an unavailable account. */
    method CreateSessionRow(id: Id, user: Id, tokenHash: Id, expiresAt: int) returns (created: Option<Id>)
      modifies this
      ensures View() == CreateSession(old(View()), id, user, tokenHash, expiresAt)
      ensures created == if user in old(users) && !old(users)[user].disabled then Some(id) else None
    {
      if user !in users || users[user].disabled {
        return None;
      }
      sessions := sessions[id := Session(user, tokenHash, expiresAt, None)];
      return Some(id);
    }

    /** INSERT ... SELECT FROM users WHERE ... AND security_version = ?; `None` when no row was inserted. */
    method CreateSessionAtVersion(id: Id, user: Id, tokenHash: Id, expiresAt: int, version: int)
      returns (created: Option<Id>)
      modifies this
      ensures View() == CreateSessionAtSecurityVersion(old(View()), id, user, tokenHash, expiresAt, version)
      ensures created == if user in old(users) && !old(users)[user].disabled
                            && old(users)[user].securityVersion == version then Some(id) else None
    {
      if user !in users || users[user].disabled || users[user].securityVersion != version {
        return None;
      }
      sessions := sessions[id := Session(user, tokenHash, expiresAt, None)];
      return Some(id);
    }

    method LogOut(tokenHash: Id, now: int) returns (familyIds: set<Id>)
      modifies this
      ensures View() == RevokeSessionByToken(old(View()), tokenHash, now)
      ensures familyIds == set id | id in old(families) && families[id] != old(families)[id]
    {
      var ids := set id | id in sessions && sessions[id].tokenHash == tokenHash;
      var _ := RevokeSessionRows(ids, now);
      assert (set id | id in sessions && sessions[id].tokenHash == tokenHash) == ids;
      familyIds := RevokeFamilyRows(
        (set id | id in families && families[id].sessionId.Some? && families[id].sessionId.value in ids), now);
    }

    method LogOutEverywhere(user: Id, now: int) returns (familyIds: set<Id>)
      modifies this
      ensures View() == RevokeAllUserSessions(old(View()), user, now)
      ensures familyIds == set id | id in old(families) && families[id] != old(families)[id]
    {
      var _ := RevokeSessionRows((set id | id in sessions && sessions[id].userId == user), now);
      familyIds := RevokeFamilyRows((set id | id in families && families[id].userId == user), now);
    }

    /** Reports whether the session was live; the families go even if it was not. */
    method LogOutOne(session: Id, user: Id, now: int) returns (revoked: bool, familyIds: set<Id>)
      modifies this
      ensures View() == RevokeSessionById(old(View()), session, user, now)
      ensures familyIds == set id | id in old(families) && families[id] != old(families)[id]
      ensures revoked <==>
                && session in old(sessions) && old(sessions)[session].userId == user
                && old(sessions)[session].revokedAt.None?
    {
      var owned := session in sessions && sessions[session].userId == user;
      var ids := if owned then {session} else {};
      var live := set id | id in ids && id in sessions && sessions[id].revokedAt.None?;
      assert live == if owned && sessions[session].revokedAt.None? then {session} else {};
      var changes := RevokeSessionRows(ids, now);
      familyIds := RevokeFamilyRows(
        (set id | id in families && families[id].sessionId.Some? && families[id].sessionId.value in ids), now);
      revoked := changes == 1;
    }

    method LogOutOthers(user: Id, keep: Id, now: int) returns (changes: nat, familyIds: set<Id>)
      modifies this
      ensures View() == RevokeOtherUserSessions(old(View()), user, keep, now)
      ensures changes == |set id | id in old(sessions) && id != keep
                                   && old(sessions)[id].userId == user && old(sessions)[id].revokedAt.None?|
      ensures familyIds == set id | id in old(families) && families[id] != old(families)[id]
    {
      var which := (set id | id in sessions && sessions[id].userId == user) - {keep};
      assert (set id | id in which && id in sessions && sessions[id].revokedAt.None?)
          == set id | id in sessions && id != keep && sessions[id].userId == user && sessions[id].revokedAt.None?;
      changes := RevokeSessionRows(which, now);
      ghost var named := FamiliesOf(View(), user) - FamiliesOnSessions(View(), {keep});
      var others := set id | id in families && families[id].userId == user
        && (families[id].sessionId.None? || families[id].sessionId.value != keep);
      assert others == named;
      familyIds := RevokeFamilyRows(others, now);
    }

    /** Delete every password, insert the new one if the account exists, advance the epoch. */
    method SetPassword(user: Id, id: Id, hash: Id, adminEligible: bool)
      modifies this
      ensures View() == SetUserPassword(old(View()), user, id, hash, adminEligible)
    {
      credentials := credentials - (set c | c in credentials && credentials[c].userId == user);
      if user in users {
        credentials := credentials[id := Credential(user, hash, adminEligible)];
        users := users[user := users[user].(securityVersion := users[user].securityVersion + 1)];
      }
    }

    /** Insert while the account is enabled and has fewer than five, then advance the epoch if the row is there. */
    method AddPassword(user: Id, id: Id, hash: Id, adminEligible: bool) returns (added: bool)
      requires id !in credentials
      modifies this
      ensures View() == AddUserPassword(old(View()), user, id, hash, adminEligible)
      ensures added <==> user in old(users) && !old(users)[user].disabled
                         && |set c | c in old(credentials) && old(credentials)[c].userId == user| < 5
    {
      var mine := set c | c in credentials && credentials[c].userId == user;
      assert mine == CredentialsOf(View(), user);
      added := user in users && !users[user].disabled && |mine| < MAXIMUM_CREDENTIALS;
      if added {
        credentials := credentials[id := Credential(user, hash, adminEligible)];
      }
      if id in credentials && credentials[id].userId == user {
        users := users[user := users[user].(securityVersion := users[user].securityVersion + 1)];
      }
    }

    method DeleteOldCredentials(r: Recovery)
      modifies this`credentials
      ensures View() == RecoveryDelete(old(View()), r)
    {
      if r.user in users && !users[r.user].disabled && users[r.user].securityVersion == r.version {
        credentials := credentials - (set id | id in credentials && credentials[id].userId == r.user);
      }
    }

    method InsertNewCredential(r: Recovery) returns (changed: bool)
      modifies this`credentials
      ensures View() == RecoveryInsert(old(View()), r)
      ensures changed <==> AtEpoch(old(View()), r.user, r.version)
    {
      changed := r.user in users && !users[r.user].disabled && users[r.user].securityVersion == r.version;
      if changed {
        credentials := credentials[r.credentialId := Credential(r.user, r.passwordHash, r.adminEligible)];
      }
    }

    method AdvanceEpoch(r: Recovery) returns (changed: bool)
      modifies this`users
      ensures View() == RecoveryAdvance(old(View()), r)
      ensures changed <==> AtEpoch(old(View()), r.user, r.version) && HasNewCredential(old(View()), r)
    {
      changed :=
        && r.user in users && !users[r.user].disabled && users[r.user].securityVersion == r.version
        && r.credentialId in credentials && credentials[r.credentialId].userId == r.user;
      if changed {
        var u := users[r.user];
        users := users[r.user :=
          u.(securityVersion := u.securityVersion + 1, emailVerified := r.verifyEmail || u.emailVerified)];
      }
    }

    method RevokeAfterAdvance(r: Recovery) returns (familyIds: set<Id>)
      modifies this`sessions, this`families
      ensures View() == RecoveryRevokeFamilies(RecoveryRevokeSessions(old(View()), r), r)
      ensures familyIds == set id | id in old(families) && families[id] != old(families)[id]
    {
      familyIds := {};
      if r.user in users && users[r.user].securityVersion == r.version + 1
         && r.credentialId in credentials && credentials[r.credentialId].userId == r.user {
        var _ := RevokeSessionRows((set id | id in sessions && sessions[id].userId == r.user), r.now);
        familyIds := RevokeFamilyRows((set id | id in families && families[id].userId == r.user), r.now);
      }
    }

    /**
     The recovery batch. It reports success exactly when the epoch was current; then the account is
     recovered, and the reported families are the ones it revoked. Otherwise nothing changed.
     */
    method SetUserPasswordAtSecurityVersion(r: Recovery) returns (ok: bool, familyIds: set<Id>)
      requires r.credentialId !in credentials
      modifies this
      ensures ok <==> r.user in old(users) && !old(users)[r.user].disabled
                      && old(users)[r.user].securityVersion == r.version
      ensures if ok then Recovered(old(View()), View(), r) else View() == old(View())
      ensures familyIds == set id | id in old(families) && families[id] != old(families)[id]
    {
      RecoveryIsCompareAndSet(View(), r);
      DeleteOldCredentials(r);
      var inserted := InsertNewCredential(r);
      var advanced := AdvanceEpoch(r);
      familyIds := RevokeAfterAdvance(r);
      ok := inserted && advanced;
    }

    /** Deletes a password unless it is the user's last login method, and tells the two refusals apart. */
    method DeletePasswordPreservingLoginMethod(id: Id, user: Id) returns (result: DeleteResult)
      modifies this`credentials
      ensures View() == DeletePassword(old(View()), id, user)
      ensures result.NotFound? <==> id !in CredentialsOf(old(View()), user)
      ensures result.LastLoginMethod? <==>
                CredentialsOf(old(View()), user) == {id} && PasskeysOf(old(View()), user) == {}
      ensures result.Deleted? <==> id in old(credentials) && id !in credentials
    {
      var mine := set c | c in credentials && credentials[c].userId == user;
      var keys := set p | p in passkeys && passkeys[p].userId == user;
      assert mine == CredentialsOf(View(), user) && keys == PasskeysOf(View(), user);
      if id in mine && (mine - {id} != {} || keys != {}) {
        credentials := credentials - {id};
        return Deleted;
      }
      return if id in mine then LastLoginMethod else NotFound;
    }

    method DeletePasskeyPreservingLoginMethod(id: Id, user: Id) returns (result: DeleteResult)
      modifies this`passkeys
      ensures View() == DeletePasskey(old(View()), id, user)
      ensures result.NotFound? <==> id !in PasskeysOf(old(View()), user)
      ensures result.LastLoginMethod? <==>
                PasskeysOf(old(View()), user) == {id} && CredentialsOf(old(View()), user) == {}
      ensures result.Deleted? <==> id in old(passkeys) && id !in passkeys
    {
      var mine := set c | c in credentials && credentials[c].userId == user;
      var keys := set p | p in passkeys && passkeys[p].userId == user;
      assert mine == CredentialsOf(View(), user) && keys == PasskeysOf(View(), user);
      if id in keys && (mine != {} || keys - {id} != {}) {
        passkeys := passkeys - {id};
        return Deleted;
      }
      return if id in keys then LastLoginMethod else NotFound;
    }

    /** The guarded insert and the prune; reports the pruned families, or that the guard failed. */
    method IssueFamily(i: Issue) returns (inserted: bool, pruned: set<Id>)
      requires i.id !in families && i.now < i.expiresAt
      modifies this
      ensures View() == IssueBatch(old(View()), i)
      ensures inserted <==> IssueGuard(old(View()), i)
      ensures inserted ==> |ActiveFamilies(View(), i.user, i.client, i.now)| <= 20
      ensures !inserted ==> View() == old(View()) && pruned == {}
      ensures pruned == set id | id in old(families) && families[id] != old(families)[id]
    {
      ghost var start := View();
      IssuanceCapsFamilies(start, i, i.now);
      inserted := InsertFamily(i);
      pruned := RevokeFamilyRows(Pruned(Db(users, credentials, passkeys, sessions, families), i), i.now);
      PrunedAreChanged(start, i);
    }

    method InsertFamily(i: Issue) returns (inserted: bool)
      modifies this`families
      ensures View() == IssueInsert(old(View()), i)
      ensures inserted <==> IssueGuard(old(View()), i)
    {
      inserted := IssueGuard(Db(users, credentials, passkeys, sessions, families), i);
      if inserted {
        families := families[i.id := Family(i.user, i.client, i.session, i.now, i.expiresAt, None)];
      }
    }
  }

  /** The rows the prune reports are those of the old table that the batch changed. */
  lemma PrunedAreChanged(db: Db, i: Issue)
    requires i.id !in db.families && i.now < i.expiresAt
    ensures var db1, after := IssueInsert(db, i), IssueBatch(db, i);
            (set id | id in Pruned(db1, i) && id in db1.families && db1.families[id].revokedAt.None?)
            == set id | id in db.families && after.families[id] != db.families[id]
  {
    var db1 := IssueInsert(db, i);
    if IssueGuard(db, i) {
      PrunedCount(db1, i);
    }
  }
}
