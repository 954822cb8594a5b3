/**
 What every account transaction does, row by row: which rows it writes, under which condition on the
 stored fields, and that it leaves every other row of every table as it was.
 */
module AccountChanges {
  import opened Wrappers
  import opened Accounts
  import opened AccountTheorems

  // ---- Frames --------------------------------------------------------------------

  ghost predicate OnlyAccess(before: Db, after: Db) {
    && after.users == before.users && after.credentials == before.credentials && after.passkeys == before.passkeys
    && after.sessions.Keys == before.sessions.Keys && after.families.Keys == before.families.Keys
  }

  /** The row as it was, or revoked at `now` if it is hit and was live. */
  predicate SessionStamped(before: Session, after: Session, hit: bool, now: int) {
    after == Session(before.userId, before.tokenHash, before.expiresAt,
                     if hit && before.revokedAt.None? then Some(now) else before.revokedAt)
  }

  predicate FamilyStamped(before: Family, after: Family, hit: bool, now: int) {
    after == Family(before.userId, before.clientId, before.sessionId, before.createdAt, before.expiresAt,
                    if hit && before.revokedAt.None? then Some(now) else before.revokedAt)
  }

  // ---- Sessions ------------------------------------------------------------------

  /** The family belongs to a session with this token. */
  predicate OnToken(db: Db, f: Family, tokenHash: Id) {
    && f.sessionId.Some? && f.sessionId.value in db.sessions
    && db.sessions[f.sessionId.value].tokenHash == tokenHash
  }

  lemma LogOutIsExact(db: Db, tokenHash: Id, now: int)
    ensures var after := RevokeSessionByToken(db, tokenHash, now);
            && OnlyAccess(db, after)
            && (forall x :: x in db.sessions ==>
                  SessionStamped(db.sessions[x], after.sessions[x], db.sessions[x].tokenHash == tokenHash, now))
            && (forall f :: f in db.families ==>
                  FamilyStamped(db.families[f], after.families[f],
                                OnToken(db, db.families[f], tokenHash), now))
  {
  }

  lemma LogOutAllIsExact(db: Db, user: Id, now: int)
    ensures var after := RevokeAllUserSessions(db, user, now);
            && OnlyAccess(db, after)
            && (forall x :: x in db.sessions ==>
                  SessionStamped(db.sessions[x], after.sessions[x], db.sessions[x].userId == user, now))
            && (forall f :: f in db.families ==>
                  FamilyStamped(db.families[f], after.families[f], db.families[f].userId == user, now))
  {
  }

  lemma LogOutOneIsExact(db: Db, session: Id, user: Id, now: int)
    ensures var after := RevokeSessionById(db, session, user, now);
            var owned := session in db.sessions && db.sessions[session].userId == user;
            && OnlyAccess(db, after)
            && (forall x :: x in db.sessions ==>
                  SessionStamped(db.sessions[x], after.sessions[x], owned && x == session, now))
            && (forall f :: f in db.families ==>
                  FamilyStamped(db.families[f], after.families[f],
                                owned && db.families[f].sessionId == Some(session), now))
  {
  }

  lemma LogOutOthersIsExact(db: Db, user: Id, keep: Id, now: int)
    ensures var after := RevokeOtherUserSessions(db, user, keep, now);
            && OnlyAccess(db, after)
            && (forall x :: x in db.sessions ==>
                  SessionStamped(db.sessions[x], after.sessions[x], db.sessions[x].userId == user && x != keep, now))
            && (forall f :: f in db.families ==>
                  FamilyStamped(db.families[f], after.families[f],
                                db.families[f].userId == user && db.families[f].sessionId != Some(keep), now))
  {
  }

  /** A new session needs an enabled account; a capability also needs its epoch to be current. */
  lemma CreateSessionIsExact(db: Db, id: Id, user: Id, tokenHash: Id, expiresAt: int)
    ensures CreateSession(db, id, user, tokenHash, expiresAt) ==
            if user in db.users && !db.users[user].disabled
            then Db(db.users, db.credentials, db.passkeys,
                    db.sessions[id := Session(user, tokenHash, expiresAt, None)], db.families)
            else db
  {
  }

  lemma CreateSessionAtIsExact(db: Db, id: Id, user: Id, tokenHash: Id, expiresAt: int, version: int)
    ensures CreateSessionAtSecurityVersion(db, id, user, tokenHash, expiresAt, version) ==
            if user in db.users && !db.users[user].disabled && db.users[user].securityVersion == version
            then Db(db.users, db.credentials, db.passkeys,
                    db.sessions[id := Session(user, tokenHash, expiresAt, None)], db.families)
            else db
  {
  }

  // ---- Passwords and passkeys --------------------------------------------------------

  ghost predicate OnlyLogin(before: Db, after: Db) {
    after.passkeys == before.passkeys && after.sessions == before.sessions && after.families == before.families
  }

  /** The user's epoch advances by one, and nothing else about any user changes. */
  ghost predicate EpochAdvanced(before: Db, after: Db, user: Id, advanced: bool) {
    && after.users.Keys == before.users.Keys
    && forall u :: u in before.users ==>
         after.users[u] == User(before.users[u].disabled,
                                before.users[u].securityVersion + (if advanced && u == user then 1 else 0),
                                before.users[u].emailVerified)
  }

  /** Setting a password replaces all of the user's by the new one and advances the epoch. */
  lemma SetPasswordIsExact(db: Db, user: Id, id: Id, hash: Id, eligible: bool)
    requires id !in db.credentials
    ensures var after := SetUserPassword(db, user, id, hash, eligible);
            && OnlyLogin(db, after) && EpochAdvanced(db, after, user, true)
            && (forall c :: c in after.credentials <==>
                  (c == id && user in db.users) || (c in db.credentials && db.credentials[c].userId != user))
            && (forall c :: c in after.credentials ==>
                  after.credentials[c] == if c == id then Credential(user, hash, eligible) else db.credentials[c])
  {
  }

  /** Adding one needs an enabled account with fewer than five; then the epoch advances, and else nothing changes. */
  lemma AddPasswordIsExact(db: Db, user: Id, id: Id, hash: Id, eligible: bool)
    requires id !in db.credentials
    ensures var after := AddUserPassword(db, user, id, hash, eligible);
            var mine := set c | c in db.credentials && db.credentials[c].userId == user;
            var added := user in db.users && !db.users[user].disabled && |mine| < 5;
            && OnlyLogin(db, after) && EpochAdvanced(db, after, user, added)
            && after.credentials == if added then db.credentials[id := Credential(user, hash, eligible)] else db.credentials
  {
    assert (set c | c in db.credentials && db.credentials[c].userId == user) == CredentialsOf(db, user);
  }

  /** The recovery's guard on the stored fields, and the credential it leaves. */
  lemma RecoveryIsExact(db: Db, r: Recovery)
    requires r.credentialId !in db.credentials
    ensures var after := RecoveryBatch(db, r);
            if r.user in db.users && !db.users[r.user].disabled && db.users[r.user].securityVersion == r.version
            then && Recovered(db, after, r)
                 && after.credentials[r.credentialId] == Credential(r.user, r.passwordHash, r.adminEligible)
                 && (forall c :: c in after.credentials <==>
                       c == r.credentialId || (c in db.credentials && db.credentials[c].userId != r.user))
            else after == db
  {
    RecoveryIsCompareAndSet(db, r);
    var after := RecoveryBatch(db, r);
    if AtEpoch(db, r.user, r.version) {
      forall c ensures c in after.credentials <==>
          c == r.credentialId || (c in db.credentials && db.credentials[c].userId != r.user) {
        assert c in after.credentials - {r.credentialId} <==> c in db.credentials - CredentialsOf(db, r.user);
      }
    }
  }

  /** A password goes only while another password or a passkey of its user stays; nothing else goes with it. */
  lemma DeletePasswordIsExact(db: Db, id: Id, user: Id)
    ensures DeletePassword(db, id, user) ==
            if id in db.credentials && db.credentials[id].userId == user
               && ((exists c :: c in db.credentials && c != id && db.credentials[c].userId == user)
                   || (exists p :: p in db.passkeys && db.passkeys[p].userId == user))
            then Db(db.users, db.credentials - {id}, db.passkeys, db.sessions, db.families) else db
  {
    DeletableIsExact(db, id, user);
  }

  lemma DeletePasskeyIsExact(db: Db, id: Id, user: Id)
    ensures DeletePasskey(db, id, user) ==
            if id in db.passkeys && db.passkeys[id].userId == user
               && ((exists c :: c in db.credentials && db.credentials[c].userId == user)
                   || (exists p :: p in db.passkeys && p != id && db.passkeys[p].userId == user))
            then Db(db.users, db.credentials, db.passkeys - {id}, db.sessions, db.families) else db
  {
    DeletableIsExact(db, id, user);
  }

  lemma DeletableIsExact(db: Db, id: Id, user: Id)
    ensures CredentialsOf(db, user) != {} <==> exists c :: c in db.credentials && db.credentials[c].userId == user
    ensures PasskeysOf(db, user) != {} <==> exists p :: p in db.passkeys && db.passkeys[p].userId == user
    ensures CredentialsOf(db, user) - {id} != {} <==>
            exists c :: c in db.credentials && c != id && db.credentials[c].userId == user
    ensures PasskeysOf(db, user) - {id} != {} <==> exists p :: p in db.passkeys && p != id && db.passkeys[p].userId == user
  {
    if CredentialsOf(db, user) != {} {
      var c := Element(CredentialsOf(db, user));
    }
    if PasskeysOf(db, user) != {} {
      var p := Element(PasskeysOf(db, user));
    }
    if CredentialsOf(db, user) - {id} != {} {
      var c := Element(CredentialsOf(db, user) - {id});
    }
    if PasskeysOf(db, user) - {id} != {} {
      var p := Element(PasskeysOf(db, user) - {id});
    }
    forall c | c in db.credentials && c != id && db.credentials[c].userId == user
      ensures CredentialsOf(db, user) - {id} != {}
    {
      assert c in CredentialsOf(db, user) - {id};
    }
    forall p | p in db.passkeys && p != id && db.passkeys[p].userId == user
      ensures PasskeysOf(db, user) - {id} != {}
    {
      assert p in PasskeysOf(db, user) - {id};
    }
  }

  lemma Element<T>(s: set<T>) returns (x: T)
    requires s != {}
    ensures x in s
  {
    x :| x in s;
  }

  lemma InsertPasskeyIsExact(db: Db, id: Id, user: Id)
    ensures InsertPasskey(db, id, user) ==
            if user in db.users
            then Db(db.users, db.credentials, db.passkeys[id := Passkey(user)], db.sessions, db.families) else db
  {
  }

  // ---- Refresh families ----------------------------------------------------------------

  /**
   An issuance needs an enabled account and, if it names a session, that the session is the user's,
   unrevoked and unexpired. Then it adds exactly its own row, revokes at `now` none but other active
   families of the same user and client, and changes nothing else.
   */
  lemma IssueIsExact(db: Db, i: Issue)
    requires i.id !in db.families && i.now < i.expiresAt
    ensures var after := IssueBatch(db, i);
            if !(&& i.user in db.users && !db.users[i.user].disabled
                 && (i.session.Some? ==>
                       && i.session.value in db.sessions && db.sessions[i.session.value].userId == i.user
                       && db.sessions[i.session.value].revokedAt.None? && db.sessions[i.session.value].expiresAt > i.now))
            then after == db
            else
              && after.users == db.users && after.credentials == db.credentials && after.passkeys == db.passkeys
              && after.sessions == db.sessions && after.families.Keys == db.families.Keys + {i.id}
              && after.families[i.id] == Family(i.user, i.client, i.session, i.now, i.expiresAt, None)
              && (forall f :: f in db.families ==>
                    || after.families[f] == db.families[f]
                    || (&& db.families[f].userId == i.user && db.families[f].clientId == i.client
                        && db.families[f].revokedAt.None? && db.families[f].expiresAt > i.now
                        && FamilyStamped(db.families[f], after.families[f], true, i.now)))
  {
    if IssueGuard(db, i) {
      PrunedCount(IssueInsert(db, i), i);
    } else {
      RefusedIssueChangesNothing(db, i);
    }
  }

  /** The cap is used: an issuance revokes nothing while the pair has fewer than 20 active families. */
  lemma IssueRevokesOnlyExcess(db: Db, i: Issue)
    requires i.id !in db.families && i.now < i.expiresAt
    requires |ActiveFamilies(db, i.user, i.client, i.now)| < 20
    ensures forall f :: f in db.families ==> IssueBatch(db, i).families[f] == db.families[f]
  {
    if IssueGuard(db, i) {
      var db1 := IssueInsert(db, i);
      PrunedCount(db1, i);
      assert ActiveFamilies(db1, i.user, i.client, i.now) == ActiveFamilies(db, i.user, i.client, i.now) + {i.id};
    } else {
      RefusedIssueChangesNothing(db, i);
    }
  }

  lemma ActiveIsExact(db: Db, user: Id, client: Id, at: int)
    ensures forall f :: f in ActiveFamilies(db, user, client, at) <==>
              && f in db.families && db.families[f].userId == user && db.families[f].clientId == client
              && db.families[f].revokedAt.None? && db.families[f].expiresAt > at
  {
  }

  /** What an issuance revokes was created before every other family it leaves active, or has the smaller id. */
  lemma IssueRevokesOldest(db: Db, i: Issue, gone: Id, kept: Id)
    requires i.id !in db.families && i.now < i.expiresAt
    requires gone in db.families && kept in db.families
    requires var after := IssueBatch(db, i);
             && db.families[gone].revokedAt.None? && after.families[gone].revokedAt.Some?
             && kept in ActiveFamilies(db, i.user, i.client, i.now) && after.families[kept].revokedAt.None?
    ensures || db.families[gone].createdAt < db.families[kept].createdAt
            || (db.families[gone].createdAt == db.families[kept].createdAt && gone < kept)
  {
    if IssueGuard(db, i) {
      var db1 := IssueInsert(db, i);
      PrunedCount(db1, i);
      PrunedAreOldest(db1, i, gone, kept);
    } else {
      RefusedIssueChangesNothing(db, i);
    }
  }
}
