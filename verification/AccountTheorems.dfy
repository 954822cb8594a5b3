/**
 What the guarded batches amount to: recovery is one compare-and-set on the security epoch, and
 issuance keeps at most 20 active families per user and client.
 */
module AccountTheorems {
  import opened Arithmetic
  import opened Wrappers
  import opened Selection
  import opened Accounts

  // ---- Recovery is a compare-and-set -----------------------------------------

  /** `after` is `before` with exactly one recovery applied. */
  ghost predicate Recovered(before: Db, after: Db, r: Recovery) {
    && after.users.Keys == before.users.Keys && r.user in before.users
    && (forall u :: u in before.users && u != r.user ==> after.users[u] == before.users[u])
    && after.users[r.user] == User(before.users[r.user].disabled, r.version + 1,
                                   r.verifyEmail || before.users[r.user].emailVerified)
    && CredentialsOf(after, r.user) == {r.credentialId}
    && after.credentials[r.credentialId] == NewCredential(r)
    && after.credentials - {r.credentialId} == before.credentials - CredentialsOf(before, r.user)
    && after.passkeys == before.passkeys
    && after.sessions.Keys == before.sessions.Keys
    && (forall s :: s in before.sessions ==>
          if before.sessions[s].userId == r.user && before.sessions[s].revokedAt.None?
          then after.sessions[s] == before.sessions[s].(revokedAt := Some(r.now))
          else after.sessions[s] == before.sessions[s])
    && after.families.Keys == before.families.Keys
    && (forall f :: f in before.families ==>
          if before.families[f].userId == r.user && before.families[f].revokedAt.None?
          then after.families[f] == before.families[f].(revokedAt := Some(r.now))
          else after.families[f] == before.families[f])
  }

  /** Statements 1 to 3 together, and that they enable statements 4 and 5 exactly when the guard held. */
  lemma FirstThreeStatements(db: Db, r: Recovery)
    requires r.credentialId !in db.credentials
    ensures var db3 := RecoveryAdvance(RecoveryInsert(RecoveryDelete(db, r), r), r);
            && (Advanced(db3, r) <==> AtEpoch(db, r.user, r.version))
            && (!AtEpoch(db, r.user, r.version) ==> db3 == db)
            && (AtEpoch(db, r.user, r.version) ==>
                  && db3.passkeys == db.passkeys && db3.sessions == db.sessions && db3.families == db.families
                  && db3.credentials
                     == (db.credentials - CredentialsOf(db, r.user))[r.credentialId := NewCredential(r)]
                  && db3.users == db.users[r.user := User(db.users[r.user].disabled, r.version + 1,
                                                          r.verifyEmail || db.users[r.user].emailVerified)])
  {
  }

  /**
   The five guarded statements are one compare-and-set: if the capability's epoch is current the
   account is recovered, otherwise nothing changes at all.
   */
  lemma RecoveryIsCompareAndSet(db: Db, r: Recovery)
    requires r.credentialId !in db.credentials
    ensures if AtEpoch(db, r.user, r.version) then Recovered(db, RecoveryBatch(db, r), r)
            else RecoveryBatch(db, r) == db
  {
    FirstThreeStatements(db, r);
    if AtEpoch(db, r.user, r.version) {
      var after := RecoveryBatch(db, r);
      assert r.credentialId in CredentialsOf(after, r.user);
      assert CredentialsOf(after, r.user) == {r.credentialId};
    }
  }

  // ---- The cap on active families --------------------------------------------

  lemma CandidateKeys(db: Db, i: Issue)
    ensures Keys(PruneCandidates(db, i)) == ActiveFamilies(db, i.user, i.client, i.now) - {i.id}
    ensures DistinctKeys(PruneCandidates(db, i))
  {
    forall id | id in ActiveFamilies(db, i.user, i.client, i.now) - {i.id} ensures id in Keys(PruneCandidates(db, i)) {
      assert Entry(db.families[id].createdAt, id) in PruneCandidates(db, i);
    }
  }

  lemma FirstKeys(s: set<Entry>, k: nat)
    requires DistinctKeys(s)
    ensures Keys(First(s, k)) <= Keys(s) && |Keys(First(s, k))| == Min(k, |s|) && |Keys(s)| == |s|
  {
    KeyCount(s);
    KeyCount(First(s, k));
  }

  /** Revoking active families deactivates exactly those. */
  lemma ActiveAfterRevoke(db: Db, gone: set<Id>, user: Id, client: Id, now: int)
    ensures ActiveFamilies(db.(families := RevokeFamilies(db.families, gone, now)), user, client, now)
         == ActiveFamilies(db, user, client, now) - gone
  {
    var after := db.(families := RevokeFamilies(db.families, gone, now));
    forall id ensures id in ActiveFamilies(after, user, client, now)
                 <==> id in ActiveFamilies(db, user, client, now) - gone {
    }
  }

  lemma PrunedCount(db: Db, i: Issue)
    requires i.id in db.families && Active(db.families[i.id], i.user, i.client, i.now)
    ensures Pruned(db, i) <= ActiveFamilies(db, i.user, i.client, i.now) - {i.id}
    ensures |Pruned(db, i)| == Excess(db, i)
  {
    var active := ActiveFamilies(db, i.user, i.client, i.now);
    CandidateKeys(db, i);
    FirstKeys(PruneCandidates(db, i), Excess(db, i));
    assert active == (active - {i.id}) + {i.id};
  }

  lemma CountWithout(all: set<Id>, gone: set<Id>)
    requires gone <= all
    ensures |all - gone| == |all| - |gone|
  {
  }

  /** The active families after the prune: the new one, and what was not pruned. */
  lemma ActiveAfterPrune(db: Db, i: Issue)
    requires i.id in db.families && Active(db.families[i.id], i.user, i.client, i.now)
    ensures var after := db.(families := RevokeFamilies(db.families, Pruned(db, i), i.now));
            && ActiveFamilies(after, i.user, i.client, i.now)
               == ActiveFamilies(db, i.user, i.client, i.now) - Pruned(db, i)
            && i.id !in Pruned(db, i)
            && |ActiveFamilies(after, i.user, i.client, i.now)|
               == Min(20, |ActiveFamilies(db, i.user, i.client, i.now)|)
  {
    ActiveAfterRevoke(db, Pruned(db, i), i.user, i.client, i.now);
    PrunedCount(db, i);
    CountWithout(ActiveFamilies(db, i.user, i.client, i.now), Pruned(db, i));
  }

  lemma ActiveShrinks(db: Db, user: Id, client: Id, at: int, later: int)
    requires at <= later
    ensures ActiveFamilies(db, user, client, later) <= ActiveFamilies(db, user, client, at)
    ensures |ActiveFamilies(db, user, client, later)| <= |ActiveFamilies(db, user, client, at)|
  {
    assert forall id :: id in ActiveFamilies(db, user, client, later) ==> id in ActiveFamilies(db, user, client, at);
    SubsetCount(ActiveFamilies(db, user, client, later), ActiveFamilies(db, user, client, at));
  }

  /** Whatever an issuance revokes is older than every other survivor. */
  lemma PrunedAreOldest(db: Db, i: Issue, gone: Id, kept: Id)
    requires gone in Pruned(db, i)
    requires kept in ActiveFamilies(db, i.user, i.client, i.now) - Pruned(db, i) && kept != i.id
    ensures gone in db.families && Less(Entry(db.families[gone].createdAt, gone), Entry(db.families[kept].createdAt, kept))
  {
    var candidates := PruneCandidates(db, i);
    var first := First(candidates, Excess(db, i));
    var e :| e in first && e.key == gone;
    assert e in candidates;
    assert Entry(db.families[kept].createdAt, kept) in candidates - first;
  }

  lemma RefusedIssueChangesNothing(db: Db, i: Issue)
    requires i.id !in db.families && !IssueGuard(db, i)
    ensures IssueBatch(db, i) == db
  {
    assert RevokeFamilies(db.families, {}, i.now) == db.families;
  }

  /**
   After a committed issuance the pair has at most 20 active families at every later time, the new
   one among them, and whatever it revoked is older than every other survivor. A failed guard
   changes no row.
   */
  lemma IssuanceCapsFamilies(db: Db, i: Issue, later: int)
    requires i.id !in db.families && i.expiresAt > i.now && i.now <= later
    ensures var after := IssueBatch(db, i);
            if !IssueGuard(db, i) then after == db
            else
              && |ActiveFamilies(after, i.user, i.client, later)| <= 20
              && i.id in ActiveFamilies(after, i.user, i.client, i.now)
              && (forall gone, kept ::
                    && gone in ActiveFamilies(db, i.user, i.client, i.now)
                    && gone !in ActiveFamilies(after, i.user, i.client, i.now)
                    && kept in ActiveFamilies(after, i.user, i.client, i.now) && kept != i.id
                    ==> Less(Entry(db.families[gone].createdAt, gone), Entry(after.families[kept].createdAt, kept)))
              && (forall f :: f in db.families && f !in ActiveFamilies(db, i.user, i.client, i.now) ==>
                    after.families[f] == db.families[f])
  {
    if IssueGuard(db, i) {
      var db1, after := IssueInsert(db, i), IssueBatch(db, i);
      ActiveAfterPrune(db1, i);
      PrunedCount(db1, i);
      ActiveShrinks(after, i.user, i.client, i.now, later);
      forall gone, kept |
        && gone in ActiveFamilies(db, i.user, i.client, i.now)
        && gone !in ActiveFamilies(after, i.user, i.client, i.now)
        && kept in ActiveFamilies(after, i.user, i.client, i.now) && kept != i.id
        ensures Less(Entry(db.families[gone].createdAt, gone), Entry(after.families[kept].createdAt, kept))
      {
        assert gone in ActiveFamilies(db1, i.user, i.client, i.now);
        PrunedAreOldest(db1, i, gone, kept);
      }
    } else {
      RefusedIssueChangesNothing(db, i);
    }
  }
}
