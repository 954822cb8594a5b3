/**
 The calls of src/tokens/refresh-token.ts and src/tokens/refresh-token-revocation.ts as programs
 over the two stores, run to completion with injected failures.
 */
module RefreshCalls {
  import opened Wrappers
  import opened RefreshFamily
  import Protocol = RefreshProtocol

  /** What goes wrong during one call: the D1 write, the compensating revoke, the row revocation. */
  datatype MirrorFault = NoFault | Throws(applied: bool)
  datatype Faults = Faults(mirror: MirrorFault, revokeOk: bool, rowOk: bool)

  datatype Outcome =
    | Token(hash: Hash)
    | ReuseOutcome
    | TooSoonOutcome(retryAfterSeconds: int)
    | ReauthorizationRequired
    | InvalidOutcome
    | Thrown

  class MirrorTable {
    var row: Protocol.Mirror

    constructor (row: Protocol.Mirror)
      ensures this.row == row
    {
      this.row := row;
    }

    /** The row of a new family. */
    method Insert(hash: Hash, scope: Scope, now: int)
      modifies this
      ensures row == Protocol.Present(hash, scope, 0, now, false)
    {
      row := Protocol.Present(hash, scope, 0, now, false);
    }

    /** UPDATE ... WHERE id = ? AND revoked_at IS NULL; reports whether a row changed. */
    method Write(hash: Hash, scope: Scope, generation: nat, now: int) returns (changed: bool)
      modifies this
      ensures changed <==> old(row).Present? && !old(row).revoked
      ensures row == if changed then Protocol.Present(hash, scope, generation, now, false) else old(row)
    {
      changed := row.Present? && !row.revoked;
      if changed {
        row := Protocol.Present(hash, scope, generation, now, false);
      }
    }

    method Revoke()
      modifies this
      ensures row == if old(row).Present? then old(row).(revoked := true) else old(row)
    {
      if row.Present? {
        row := row.(revoked := true);
      }
    }
  }

  /** The protocol steps of one rotation call with nothing interleaved. */
  function CallAlone(s: Protocol.State, c: Protocol.CallId, q: Request, now: int, faults: Faults): Protocol.State
    requires c !in s.calls
  {
    var s1 := Protocol.RotateStep(s, c, q);
    var s2 :=
      if c in s1.calls && s1.calls[c].Mirroring? then
        if faults.mirror.NoFault? then Protocol.MirrorStep(s1, c, now)
        else Protocol.MirrorThrewStep(s1, c, faults.mirror.applied, now)
      else s1;
    if c !in s2.calls then s2
    else if s2.calls[c].Compensating? then Protocol.Apply(s2, Protocol.Compensate(c, faults.revokeOk))
    else if s2.calls[c].RevokingRow? then Protocol.Apply(s2, Protocol.RevokeRow(c, faults.rowOk))
    else s2
  }

  /** What one rotation call leaves in the two stores, and what it answers. */
  datatype Result = Result(family: Family, row: Protocol.Mirror, outcome: Outcome)

  function Mirrored(f: Family, row: Protocol.Mirror, q: Request, m: Meta, now: int, faults: Faults): Result {
    var written :=
      if faults.mirror.NoFault? || faults.mirror.applied
      then Protocol.WriteMirror(row, q.newHash, m.scope, m.generation, now) else row;
    if faults.mirror.NoFault? && Protocol.Live(row) then Result(f, written, Token(q.newHash))
    else Result(if faults.revokeOk then Burn(f) else f, written,
                if faults.mirror.NoFault? && faults.revokeOk then InvalidOutcome else Thrown)
  }

  function Burned(f: Family, row: Protocol.Mirror, outcome: Outcome, faults: Faults): Result {
    if faults.rowOk then Result(f, Protocol.RevokeMirror(row), outcome) else Result(f, row, Thrown)
  }

  function CallResult(f: Family, row: Protocol.Mirror, q: Request, now: int, faults: Faults): Result {
    match Answer(f, q)
    case Rotated(m) => Mirrored(After(f, q), row, q, m, now, faults)
    case ReuseDetected => Burned(After(f, q), row, ReuseOutcome, faults)
    case GenerationLimit => Burned(After(f, q), row, ReauthorizationRequired, faults)
    case TooSoon(wait) => Result(f, row, TooSoonOutcome(wait))
    case _ => Result(f, row, InvalidOutcome)
  }

  /** Nothing but a granted rotation, a fault-free write and a live row returns a token, and then both stores hold it. */
  lemma TokenMeansBoth(f: Family, row: Protocol.Mirror, q: Request, now: int, faults: Faults)
    ensures var r := CallResult(f, row, q, now, faults);
            && (r.outcome.Token? <==> Answer(f, q).Rotated? && Protocol.Live(row) && faults.mirror.NoFault?)
            && (r.outcome.Token? ==>
                  && r.outcome.hash == q.newHash && r.family.currentHash == Some(q.newHash) && r.family.meta.Some?
                  && r.row == Protocol.Present(q.newHash, r.family.meta.value.scope,
                                               r.family.meta.value.generation, now, false))
  {
  }

  predicate LiveRow(row: Protocol.Mirror) {
    row.Present? && !row.revoked
  }

  /**
   A granted rotation that returns no token fails closed: the caller gets nothing, the family is
   burned if the compensation gets through, and the row holds the new token only if the write was
   applied to a live row.
   */
  lemma LostRotationIsExact(f: Family, row: Protocol.Mirror, q: Request, now: int, faults: Faults)
    requires Answer(f, q).Rotated? && !(LiveRow(row) && faults.mirror.NoFault?)
    ensures var r := CallResult(f, row, q, now, faults);
            && r.outcome == (if faults.mirror.NoFault? && faults.revokeOk then InvalidOutcome else Thrown)
            && r.family.meta.Some? && r.family.currentHash == Some(q.newHash)
            && r.family.meta.value.revoked == faults.revokeOk
            && r.row == if LiveRow(row) && faults.mirror.Throws? && faults.mirror.applied
                        then Protocol.Present(q.newHash, q.scope, f.meta.value.generation + 1, now, false) else row
  {
  }

  /** Reuse and the generation limit burn the object and, if that statement gets through, the row. */
  lemma BurnedCallIsExact(f: Family, row: Protocol.Mirror, q: Request, now: int, faults: Faults)
    requires Answer(f, q).ReuseDetected? || Answer(f, q).GenerationLimit?
    ensures var r := CallResult(f, row, q, now, faults);
            && r.family.meta.Some? && r.family.meta.value.revoked && r.family.currentHash == f.currentHash
            && r.outcome == (if !faults.rowOk then Thrown
                             else if Answer(f, q).ReuseDetected? then ReuseOutcome else ReauthorizationRequired)
            && r.row == if faults.rowOk && row.Present? then row.(revoked := true) else row
  {
  }

  /** Every other refusal leaves both stores as they were and names the wait, or nothing. */
  lemma RefusedCallIsExact(f: Family, row: Protocol.Mirror, q: Request, now: int, faults: Faults)
    requires var a := Answer(f, q); a.TooSoon? || a.Revoked? || a.Expired? || a.Invalid?
    ensures var r := CallResult(f, row, q, now, faults);
            && r.family == f && r.row == row
            && r.outcome == match Answer(f, q) case TooSoon(wait) => TooSoonOutcome(wait) case _ => InvalidOutcome
  {
  }

  /** The call run alone is the protocol's steps in a row, and hands out exactly the token it returns. */
  lemma CallIsProtocol(s: Protocol.State, c: Protocol.CallId, q: Request, now: int, faults: Faults)
    requires c !in s.calls
    ensures var t, r := CallAlone(s, c, q, now, faults), CallResult(s.family, s.row, q, now, faults);
            && t.family == r.family && t.row == r.row
            && t.held == if r.outcome.Token? then s.held + {r.outcome.hash} else s.held
  {
    var s1 := Protocol.RotateStep(s, c, q);
    match Answer(s.family, q) {
      case Rotated(_) => assert s1.calls[c].Mirroring?;
      case ReuseDetected => assert s1.calls[c].RevokingRow?;
      case GenerationLimit => assert s1.calls[c].RevokingRow?;
      case TooSoon(_) =>
      case Revoked =>
      case Expired =>
      case Invalid =>
    }
  }

  /**
   Rotate in the Durable Object, mirror to D1, compensate on failure. The stores end as the
   protocol steps say, and a token comes back only when both sides moved to it.
   */
  method RotateRefreshToken(family: RefreshTokenFamily, table: MirrorTable, q: Request, now: int, faults: Faults)
    returns (outcome: Outcome)
    modifies family, table
    ensures Result(family.View(), table.row, outcome) == CallResult(old(family.View()), old(table.row), q, now, faults)
    ensures outcome.Token? <==> Answer(old(family.View()), q).Rotated? && Protocol.Live(old(table.row))
                                && faults.mirror.NoFault?
  {
    TokenMeansBoth(family.View(), table.row, q, now, faults);
    var result := family.Rotate(q);
    match result {
      case Rotated(meta) =>
        var changed := false;
        if faults.mirror.NoFault? || faults.mirror.applied {
          changed := table.Write(q.newHash, meta.scope, meta.generation, now);
        }
        if faults.mirror.NoFault? && changed {
          return Token(q.newHash);
        }
        if faults.revokeOk {
          family.Revoke();
        }
        return if faults.mirror.NoFault? && faults.revokeOk then InvalidOutcome else Thrown;
      case ReuseDetected =>
        if faults.rowOk {
          table.Revoke();
        }
        return if faults.rowOk then ReuseOutcome else Thrown;
      case GenerationLimit =>
        if faults.rowOk {
          table.Revoke();
        }
        return if faults.rowOk then ReauthorizationRequired else Thrown;
      case TooSoon(wait) => return TooSoonOutcome(wait);
      case _ => return InvalidOutcome;
    }
  }

  // ---- Issuance ----------------------------------------------------------------

  /** What goes wrong during one issuance: the batch, or the compensating revoke. */
  datatype IssueFaults = IssueFaults(batch: MirrorFault, revokeOk: bool)

  datatype IssueOutcome = IssuedToken(hash: Hash) | InvalidGrant | IssueThrown

  /**
   Create the object, insert the row if the guard holds, burn the object otherwise. A token is
   returned exactly when the guard held and nothing failed, and then both stores hold it; in every
   other case the object is dead unless the compensating revoke failed too.
   */
  method IssueRefreshToken(family: RefreshTokenFamily, table: MirrorTable, guard: bool,
                           clientId: ClientId, scope: Scope, hash: Hash, expiresAt: int, now: int, faults: IssueFaults)
    returns (outcome: IssueOutcome)
    requires family.View() == EMPTY && table.row.Absent?
    modifies family, table
    ensures outcome.IssuedToken? <==> guard && faults.batch.NoFault?
    ensures outcome.IssuedToken? ==> outcome.hash == hash
    ensures outcome.InvalidGrant? <==> !guard && faults.batch.NoFault? && faults.revokeOk
    ensures family.currentHash == Some(hash) && family.used == {} && family.legacyUsed == {}
    ensures family.meta == Some(Meta(clientId, scope, expiresAt, now, 0,
                                     !outcome.IssuedToken? && faults.revokeOk, Some(now)))
    ensures table.row == if guard && (faults.batch.NoFault? || faults.batch.applied)
                         then Protocol.Present(hash, scope, 0, now, false) else Protocol.Absent
  {
    family.InitFamily(clientId, scope, hash, expiresAt, now);
    if guard && (faults.batch.NoFault? || faults.batch.applied) {
      table.Insert(hash, scope, now);
    }
    if faults.batch.NoFault? && guard {
      return IssuedToken(hash);
    }
    if faults.revokeOk {
      family.Revoke();
    }
    return if faults.batch.NoFault? && faults.revokeOk then InvalidGrant else IssueThrown;
  }

  /** The protocol's steps of an issuance run alone end in the same stores. */
  lemma IssueIsProtocol(guard: bool, clientId: ClientId, scope: Scope, hash: Hash, expiresAt: int, now: int,
                        faults: IssueFaults)
    returns (events: seq<Protocol.Event>, s: Protocol.State)
    ensures Protocol.Run(Protocol.START, events) == Some(s) && s.calls == map[]
    ensures s.held == if guard && faults.batch.NoFault? then {hash} else {}
    ensures s.family.currentHash == Some(hash)
    ensures s.family.meta == Some(Meta(clientId, scope, expiresAt, now, 0,
                                       !(guard && faults.batch.NoFault?) && faults.revokeOk, Some(now)))
    ensures s.row == if guard && (faults.batch.NoFault? || faults.batch.applied)
                     then Protocol.Present(hash, scope, 0, now, false) else Protocol.Absent
  {
    var first := Protocol.IssueInit(0, clientId, scope, hash, expiresAt, now);
    var s1 := Protocol.Apply(Protocol.START, first);
    var batch :=
      if faults.batch.Throws? then Protocol.IssueThrew(0, faults.batch.applied && guard)
      else if guard then Protocol.IssueInsert(0) else Protocol.IssueRefused(0);
    var s2 := Protocol.Apply(s1, batch);
    if guard && faults.batch.NoFault? {
      events, s := [first, batch], s2;
      assert Protocol.Run(s2, []) == Some(s2);
      assert Protocol.Run(s1, events[1..]) == Some(s2) by { assert events[1..] == [batch]; }
    } else {
      var last := Protocol.Compensate(0, faults.revokeOk);
      events, s := [first, batch, last], Protocol.Apply(s2, last);
      assert Protocol.Run(s, []) == Some(s);
      assert Protocol.Run(s2, events[2..]) == Some(s) by { assert events[2..] == [last]; }
      assert Protocol.Run(s1, events[1..]) == Some(s) by { assert events[1..][1..] == events[2..]; }
    }
  }

  // ---- Mirroring a revocation into the Durable Objects --------------------------

  /** The answer to one revoke call; a rejected one may still have been applied. */
  datatype Reply = Fulfilled | Rejected(applied: bool)

  /** The answers a family's revoke calls would get, by attempt. */
  type Network = (nat, nat) -> Reply

  /** Every attempt before the n-th was rejected. */
  predicate Pending(network: Network, n: nat, id: nat) {
    n == 0 || (Pending(network, n - 1, id) && network(n - 1, id).Rejected?)
  }

  /** Some attempt before the n-th was made and took effect. */
  predicate Reached(network: Network, n: nat, id: nat) {
    n > 0 && (Reached(network, n - 1, id)
              || (Pending(network, n - 1, id) && (network(n - 1, id).Fulfilled? || network(n - 1, id).applied)))
  }

  function AllReached(network: Network, n: nat, ids: set<nat>): set<nat> {
    set id | id in ids && Reached(network, n, id)
  }

  function AllPending(network: Network, n: nat, ids: set<nat>): set<nat> {
    set id | id in ids && Pending(network, n, id)
  }

  /** Those that one more round reaches. */
  function NowReached(network: Network, n: nat, pending: set<nat>): set<nat> {
    set id | id in pending && (network(n, id).Fulfilled? || network(n, id).applied)
  }

  lemma OneMoreRound(network: Network, n: nat, ids: set<nat>)
    ensures AllReached(network, n + 1, ids)
         == AllReached(network, n, ids) + NowReached(network, n, AllPending(network, n, ids))
  {
  }

  /** Without pending families a further round would reach no other. */
  lemma NothingPending(network: Network, n: nat, ids: set<nat>)
    requires AllPending(network, n, ids) == {}
    ensures AllReached(network, n + 1, ids) == AllReached(network, n, ids)
    ensures AllPending(network, n + 1, ids) == {}
  {
    OneMoreRound(network, n, ids);
    assert forall id :: id in ids ==> id !in AllPending(network, n, ids);
  }

  lemma TwoRounds(network: Network, ids: set<nat>)
    ensures AllPending(network, 2, ids) == set id | id in ids && network(0, id).Rejected? && network(1, id).Rejected?
    ensures forall id :: id in ids ==> id in AllPending(network, 2, ids) || id in AllReached(network, 2, ids)
  {
    forall id | id in ids
      ensures Pending(network, 2, id) == (network(0, id).Rejected? && network(1, id).Rejected?)
      ensures Pending(network, 2, id) || Reached(network, 2, id)
    {
      assert Pending(network, 1, id) == network(0, id).Rejected?;
      assert Reached(network, 1, id) == (network(0, id).Fulfilled? || network(0, id).applied);
    }
  }

  function BurnEach(families: map<nat, Family>, ids: set<nat>): map<nat, Family> {
    map id | id in families :: if id in ids then Burn(families[id]) else families[id]
  }

  lemma BurnAgain(families: map<nat, Family>, a: set<nat>, b: set<nat>)
    ensures BurnEach(BurnEach(families, a), b) == BurnEach(families, a + b)
  {
  }

  class FamilyObjects {
    var families: map<nat, Family>

    constructor (families: map<nat, Family>)
      ensures this.families == families
    {
      this.families := families;
    }

    /** One round of revoke calls, all made whatever the others answer. */
    method RevokeRound(pending: set<nat>, attempt: nat, network: Network) returns (rejected: set<nat>)
      modifies this
      ensures rejected == set id | id in pending && network(attempt, id).Rejected?
      ensures families == BurnEach(old(families), NowReached(network, attempt, pending))
    {
      rejected := set id | id in pending && network(attempt, id).Rejected?;
      var applied := set id | id in pending && (network(attempt, id).Fulfilled? || network(attempt, id).applied);
      families := map id | id in families :: if id in applied then Burn(families[id]) else families[id];
    }

    /**
     The bounded retry: two attempts, the second only for the families whose first revoke was
     rejected. Exactly the families that an attempt reached are burned, and those still pending, whose
     attempts were both rejected, are reported; every other one is burned.
     */
    method RevokeRefreshFamilyDurableObjects(familyIds: set<nat>, network: Network) returns (pending: set<nat>)
      modifies this
      ensures pending == set id | id in familyIds && network(0, id).Rejected? && network(1, id).Rejected?
      ensures families == BurnEach(old(families), AllReached(network, 2, familyIds))
      ensures forall id :: id in familyIds && id !in pending && id in families ==> Dead(families[id])
    {
      pending := familyIds;
      var attempt := 0;
      assert AllReached(network, 0, familyIds) == {};
      while attempt < 2 && pending != {}
        invariant 0 <= attempt <= 2
        invariant pending == AllPending(network, attempt, familyIds)
        invariant families == BurnEach(old(families), AllReached(network, attempt, familyIds))
      {
        OneMoreRound(network, attempt, familyIds);
        BurnAgain(old(families), AllReached(network, attempt, familyIds), NowReached(network, attempt, pending));
        pending := RevokeRound(pending, attempt, network);
        attempt := attempt + 1;
      }
      if attempt < 2 {
        NothingPending(network, attempt, familyIds);
        NothingPending(network, attempt + 1, familyIds);
      }
      TwoRounds(network, familyIds);
    }
  }
}
