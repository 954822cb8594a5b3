/**
 One refresh-token family mirrored in two stores (src/tokens/refresh-token.ts): the Durable Object
 rotates first, then D1 is updated, and either side may fail in between.

 A step is one atomic effect on one store. Calls interleave freely, may be abandoned at any point,
 and a failing D1 write may or may not have been applied. A token is held by a client from the D1
 write after which it is returned; a client can present only a held token, or a string that was
 never generated.
 */
module RefreshProtocol {
  import opened Wrappers
  import opened RefreshFamily

  type CallId = nat

  /** The family's row in `refresh_tokens`; after deletion it is never inserted again. */
  datatype Mirror =
    | Absent
    | Present(tokenHash: Hash, scope: Scope, generation: nat, lastRotatedAt: int, revoked: bool)
    | Deleted

  /** What an unfinished call still has to do. */
  datatype Call =
    | Issuing(hash: Hash, scope: Scope, now: int)
    | Mirroring(newHash: Hash, scope: Scope, generation: nat)
    | Compensating
    | RevokingRow

  /** `missed` is a history variable: a rotation's D1 write on a live row was lost. */
  datatype State = State(
    family: Family,
    row: Mirror,
    calls: map<CallId, Call>,
    held: set<Hash>,
    generated: set<Hash>,
    missed: bool)

  const START := State(EMPTY, Absent, map[], {}, {}, false)

  datatype Event =
    | IssueInit(call: CallId, clientId: ClientId, scope: Scope, hash: Hash, expiresAt: int, now: int)
    | IssueInsert(call: CallId)
    | IssueRefused(call: CallId)
    | IssueThrew(call: CallId, applied: bool)
    | RotateFamily(call: CallId, request: Request)
    | MirrorWrite(call: CallId, now: int)
    | MirrorThrew(call: CallId, applied: bool, now: int)
    | Compensate(call: CallId, ok: bool)
    | RevokeRow(call: CallId, ok: bool)
    | Abandon(call: CallId)
    | RowRevoked
    | RowDeleted
    | FamilyRevoked
    | FamilyAlarm

  predicate Live(row: Mirror) {
    row.Present? && !row.revoked
  }

  predicate Enabled(s: State, e: Event) {
    match e
    case IssueInit(c, _, _, _, _, _) => s == START
    case IssueInsert(c) => c in s.calls && s.calls[c].Issuing?
    case IssueRefused(c) => c in s.calls && s.calls[c].Issuing?
    case IssueThrew(c, _) => c in s.calls && s.calls[c].Issuing?
    case RotateFamily(c, q) =>
      && c !in s.calls
      && (q.presented in s.held || q.presented !in s.generated)
      && q.newHash !in s.generated
    case MirrorWrite(c, _) => c in s.calls && s.calls[c].Mirroring?
    case MirrorThrew(c, _, _) => c in s.calls && s.calls[c].Mirroring?
    case Compensate(c, _) => c in s.calls && s.calls[c].Compensating?
    case RevokeRow(c, _) => c in s.calls && s.calls[c].RevokingRow?
    case Abandon(c) => c in s.calls
    case RowRevoked => true
    case RowDeleted => s.row.Present?
    case FamilyRevoked => true
    case FamilyAlarm => true
  }

  function RevokeMirror(row: Mirror): Mirror {
    if row.Present? then row.(revoked := true) else row
  }

  /** UPDATE ... WHERE id = ? AND revoked_at IS NULL. */
  function WriteMirror(row: Mirror, hash: Hash, scope: Scope, generation: nat, now: int): Mirror {
    if Live(row) then Present(hash, scope, generation, now, false) else row
  }

  function InsertedRow(call: Call): Mirror
    requires call.Issuing?
  {
    Present(call.hash, call.scope, 0, call.now, false)
  }

  function Drop(s: State, c: CallId): State {
    s.(calls := s.calls - {c})
  }

  function RotateStep(s: State, c: CallId, q: Request): State {
    var t := s.(family := After(s.family, q), generated := s.generated + {q.newHash});
    match Answer(s.family, q)
    case Rotated(m) => t.(calls := s.calls[c := Mirroring(q.newHash, m.scope, m.generation)])
    case ReuseDetected => t.(calls := s.calls[c := RevokingRow])
    case GenerationLimit => t.(calls := s.calls[c := RevokingRow])
    case _ => t
  }

  /** The mirror write of a finished rotation returns the token only if it changed the row. */
  function MirrorStep(s: State, c: CallId, now: int): State
    requires c in s.calls && s.calls[c].Mirroring?
  {
    var call := s.calls[c];
    if Live(s.row) then
      Drop(s, c).(row := WriteMirror(s.row, call.newHash, call.scope, call.generation, now),
                  held := s.held + {call.newHash})
    else s.(calls := s.calls[c := Compensating])
  }

  function MirrorThrewStep(s: State, c: CallId, applied: bool, now: int): State
    requires c in s.calls && s.calls[c].Mirroring?
  {
    var call := s.calls[c];
    s.(calls := s.calls[c := Compensating],
       row := if applied then WriteMirror(s.row, call.newHash, call.scope, call.generation, now) else s.row,
       missed := s.missed || (!applied && Live(s.row)))
  }

  function Apply(s: State, e: Event): State
    requires Enabled(s, e)
  {
    match e
    case IssueInit(c, clientId, scope, hash, expiresAt, now) =>
      s.(family := Init(s.family, clientId, scope, hash, expiresAt, now),
         calls := map[c := Issuing(hash, scope, now)],
         generated := {hash})
    case IssueInsert(c) =>
      Drop(s, c).(row := InsertedRow(s.calls[c]), held := s.held + {s.calls[c].hash})
    case IssueRefused(c) => s.(calls := s.calls[c := Compensating])
    case IssueThrew(c, applied) =>
      s.(calls := s.calls[c := Compensating],
         row := if applied then InsertedRow(s.calls[c]) else s.row)
    case RotateFamily(c, q) => RotateStep(s, c, q)
    case MirrorWrite(c, now) => MirrorStep(s, c, now)
    case MirrorThrew(c, applied, now) => MirrorThrewStep(s, c, applied, now)
    case Compensate(c, ok) => Drop(if ok then s.(family := Burn(s.family)) else s, c)
    case RevokeRow(c, ok) => Drop(if ok then s.(row := RevokeMirror(s.row)) else s, c)
    case Abandon(c) => Drop(s, c).(missed := s.missed || (s.calls[c].Mirroring? && Live(s.row)))
    case RowRevoked => s.(row := RevokeMirror(s.row))
    case RowDeleted => s.(row := Deleted)
    case FamilyRevoked => s.(family := Burn(s.family))
    case FamilyAlarm => s.(family := EMPTY)
  }

  /** The state after a run from `s`, provided every event was enabled when it happened. */
  function Run(s: State, events: seq<Event>): Option<State>
    decreases events
  {
    if events == [] then Some(s)
    else if Enabled(s, events[0]) then Run(Apply(s, events[0]), events[1..])
    else None
  }

  // ---- The invariant ---------------------------------------------------------

  predicate Carrying(call: Call) {
    call.Issuing? || call.Mirroring?
  }

  predicate InSync(s: State) {
    && s.row.Present? && s.family.meta.Some?
    && s.family.currentHash == Some(s.row.tokenHash)
    && s.family.meta.value.generation == s.row.generation
    && s.family.meta.value.scope == s.row.scope
  }

  /** D1 is exactly one rotation behind, and the newest token is in no client's hands. */
  predicate OneBehind(s: State) {
    && s.row.Present? && s.family.meta.Some? && s.family.currentHash.Some?
    && s.row.generation + 1 == s.family.meta.value.generation
    && s.row.tokenHash in s.family.used
    && s.family.currentHash.value !in s.held
  }

  /** No rotation is waiting for its D1 write. */
  predicate Quiet(s: State) {
    forall c :: c in s.calls ==> !s.calls[c].Mirroring?
  }

  /** No client holds, and no unfinished call will return, the one token that could rotate. */
  predicate Stuck(s: State) {
    && (s.family.meta.Some? && s.family.currentHash.Some? ==> s.family.currentHash.value !in s.held)
    && (forall c :: c in s.calls ==> !Carrying(s.calls[c]))
  }

  ghost predicate FamilySound(s: State) {
    && (s.family.meta.Some? <==> s.family.currentHash.Some?)
    && s.held <= s.generated && s.family.used <= s.generated
    && (s.family.meta.Some? ==> s.family.currentHash.value in s.generated)
    && (s.row.Absent? ==> s.held == {})
  }

  ghost predicate CarrierSound(s: State, c: CallId)
    requires c in s.calls
  {
    match s.calls[c]
    case Issuing(h, scope, _) =>
      && s.row.Absent? && h in s.generated
      && (s.family.meta.Some? ==>
            s.family.currentHash == Some(h) && s.family.meta.value.generation == 0 && s.family.meta.value.scope == scope)
    case Mirroring(h, scope, g) =>
      && h in s.generated && h !in s.held && !s.row.Absent?
      && (s.family.meta.Some? ==>
            && s.family.currentHash == Some(h) && s.family.meta.value.generation == g
            && s.family.meta.value.scope == scope
            && (s.row.Present? ==> OneBehind(s)))
    case _ => true
  }

  ghost predicate Inv(s: State) {
    && FamilySound(s)
    && (forall c :: c in s.calls ==> CarrierSound(s, c))
    && (forall c, d :: c in s.calls && d in s.calls && Carrying(s.calls[c]) && Carrying(s.calls[d]) ==> c == d)
    && (s.row.Present? && s.family.meta.Some? ==> InSync(s) || OneBehind(s))
    && (Live(s.row) && s.family.meta.Some? && Quiet(s) ==> (InSync(s) <==> !s.missed))
    && (s.missed ==> Stuck(s) && (s.row.Present? && s.family.meta.Some? ==> OneBehind(s)))
  }

  lemma GenerateKeepsInv(s: State, h: Hash)
    requires Inv(s)
    ensures Inv(s.(generated := s.generated + {h}))
  {
  }

  /** Calls that will return no token come and go without effect on the invariant. */
  lemma AddKeepsInv(s: State, c: CallId)
    requires Inv(s) && c !in s.calls
    ensures Inv(s.(calls := s.calls[c := RevokingRow]))
  {
    var t := s.(calls := s.calls[c := RevokingRow]);
    assert forall d :: d in s.calls ==> d in t.calls && t.calls[d] == s.calls[d];
    assert forall d :: d in t.calls && Carrying(t.calls[d]) ==> d in s.calls;
    assert Quiet(s) <==> Quiet(t);
  }

  lemma DropKeepsInv(s: State, c: CallId)
    requires Inv(s) && c in s.calls && !Carrying(s.calls[c])
    ensures Inv(Drop(s, c))
  {
    var t := Drop(s, c);
    assert forall d :: d in s.calls && Carrying(s.calls[d]) ==> d in t.calls && t.calls[d] == s.calls[d];
  }

  lemma RefusedKeepsInv(s: State, c: CallId, q: Request)
    requires Inv(s) && Enabled(s, RotateFamily(c, q)) && !Answer(s.family, q).Rotated?
    ensures Inv(RotateStep(s, c, q))
  {
    RefusedMeans(s.family, q);
    StoreKeepsInv(s, FamilyRevoked);
    var s1 := s.(family := After(s.family, q));
    assert s1 == s || s1 == Apply(s, FamilyRevoked);
    GenerateKeepsInv(s1, q.newHash);
    var s2 := s1.(generated := s1.generated + {q.newHash});
    AddKeepsInv(s2, c);
    assert RotateStep(s, c, q) == s2 || RotateStep(s, c, q) == s2.(calls := s2.calls[c := RevokingRow]);
  }

  lemma RotatedKeepsInv(s: State, c: CallId, q: Request)
    requires Inv(s) && Enabled(s, RotateFamily(c, q)) && Answer(s.family, q).Rotated?
    ensures Inv(RotateStep(s, c, q))
  {
    RotatedMeans(s.family, q);
    var t := RotateStep(s, c, q);
    assert forall d :: d in s.calls ==> !Carrying(s.calls[d]);
    assert t.calls[c].Mirroring?;
    assert forall d :: d in s.calls ==> d in t.calls && t.calls[d] == s.calls[d];
  }

  lemma IssueKeepsInv(s: State, e: Event)
    requires Inv(s) && Enabled(s, e)
    requires e.IssueInit? || e.IssueInsert? || e.IssueRefused? || e.IssueThrew?
    ensures Inv(Apply(s, e))
  {
  }

  lemma MirrorKeepsInv(s: State, e: Event)
    requires Inv(s) && Enabled(s, e)
    requires e.MirrorWrite? || e.MirrorThrew? || e.Abandon?
    ensures Inv(Apply(s, e))
  {
    assert CarrierSound(s, e.call);
    var t := Apply(s, e);
    if Carrying(s.calls[e.call]) {
      assert forall d :: d in t.calls ==> !Carrying(t.calls[d]);
    } else {
      assert forall d :: d in s.calls && Carrying(s.calls[d]) ==> d in t.calls;
    }
  }

  lemma CleanupKeepsInv(s: State, e: Event)
    requires Inv(s) && Enabled(s, e) && (e.Compensate? || e.RevokeRow?)
    ensures Inv(Apply(s, e))
  {
    var done := if !e.ok then s else Apply(s, if e.Compensate? then FamilyRevoked else RowRevoked);
    StoreKeepsInv(s, FamilyRevoked);
    StoreKeepsInv(s, RowRevoked);
    DropKeepsInv(done, e.call);
  }

  lemma StoreKeepsInv(s: State, e: Event)
    requires Inv(s) && Enabled(s, e)
    requires e.RowRevoked? || e.RowDeleted? || e.FamilyRevoked? || e.FamilyAlarm?
    ensures Inv(Apply(s, e))
  {
  }

  lemma StepKeepsInv(s: State, e: Event)
    requires Inv(s) && Enabled(s, e)
    ensures Inv(Apply(s, e))
  {
    match e {
      case RotateFamily(c, q) =>
        if Answer(s.family, q).Rotated? {
          RotatedKeepsInv(s, c, q);
        } else {
          RefusedKeepsInv(s, c, q);
        }
      case IssueInit(_, _, _, _, _, _) => IssueKeepsInv(s, e);
      case IssueInsert(_) => IssueKeepsInv(s, e);
      case IssueRefused(_) => IssueKeepsInv(s, e);
      case IssueThrew(_, _) => IssueKeepsInv(s, e);
      case MirrorWrite(_, _) => MirrorKeepsInv(s, e);
      case MirrorThrew(_, _, _) => MirrorKeepsInv(s, e);
      case Abandon(_) => MirrorKeepsInv(s, e);
      case Compensate(_, _) => CleanupKeepsInv(s, e);
      case RevokeRow(_, _) => CleanupKeepsInv(s, e);
      case _ => StoreKeepsInv(s, e);
    }
  }

  /** No step takes a token out of a client's hands. */
  lemma HeldOnlyGrows(s: State, e: Event)
    requires Enabled(s, e)
    ensures s.held <= Apply(s, e).held
  {
  }

  lemma {:induction false} RunKeepsInv(s: State, events: seq<Event>)
    requires Inv(s) && Run(s, events).Some?
    ensures Inv(Run(s, events).value) && s.held <= Run(s, events).value.held
    decreases events
  {
    if events != [] {
      StepKeepsInv(s, events[0]);
      HeldOnlyGrows(s, events[0]);
      RunKeepsInv(Apply(s, events[0]), events[1..]);
    }
  }

  // ---- Failing closed --------------------------------------------------------

  /** A request a client can make: a token it holds, or a string that is nobody's token. */
  predicate Presentable(s: State, q: Request) {
    q.presented in s.held || q.presented !in s.generated
  }

  ghost predicate NothingRotates(s: State) {
    forall q :: Presentable(s, q) ==> !Answer(s.family, q).Rotated?
  }

  lemma StuckStep(s: State, e: Event)
    requires Inv(s) && Stuck(s) && Enabled(s, e) && !e.IssueInit?
    ensures var t := Apply(s, e); Inv(t) && Stuck(t) && t.held == s.held && NothingRotates(t)
  {
    StepKeepsInv(s, e);
    if e.RotateFamily? {
      assert !Answer(s.family, e.request).Rotated?;
    }
  }

  lemma {:induction false} StuckForever(s: State, events: seq<Event>)
    requires Inv(s) && Stuck(s) && s.generated != {} && Run(s, events).Some?
    ensures var t := Run(s, events).value;
            Inv(t) && Stuck(t) && t.held == s.held && NothingRotates(t)
    decreases events
  {
    if events != [] {
      StuckStep(s, events[0]);
      StuckForever(Apply(s, events[0]), events[1..]);
    }
  }

  /**
   After the mirror write of a rotation throws, or the call dies before it, no token of the family
   ever rotates again, whatever follows: also when the compensating revoke fails, and whether or
   not the failed write was applied.
   */
  lemma LostMirrorNeverRotates(events: seq<Event>, loss: Event, more: seq<Event>)
    requires Run(START, events).Some?
    requires loss.MirrorThrew? || loss.Abandon?
    requires Enabled(Run(START, events).value, loss)
    requires Run(START, events).value.calls[loss.call].Mirroring?
    requires Run(Apply(Run(START, events).value, loss), more).Some?
    ensures var t := Run(Apply(Run(START, events).value, loss), more).value;
            NothingRotates(t) && t.held == Run(START, events).value.held
  {
    RunKeepsInv(START, events);
    var s := Run(START, events).value;
    StepKeepsInv(s, loss);
    assert CarrierSound(s, loss.call) && Carrying(s.calls[loss.call]);
    StuckForever(Apply(s, loss), more);
  }

  /** The family is revoked, or its row deleted, in D1. */
  predicate Closed(s: State) {
    s.row.Deleted? || (s.row.Present? && s.row.revoked)
  }

  /** The rotations still possible once D1 has closed the family. */
  function Slack(s: State): nat {
    if s.family.meta.Some? && s.family.currentHash.Some? && s.family.currentHash.value in s.held then 1 else 0
  }

  function Generation(s: State): nat {
    if s.family.meta.Some? then s.family.meta.value.generation else 0
  }

  lemma ClosedStep(s: State, e: Event)
    requires Inv(s) && Closed(s) && Enabled(s, e)
    ensures var t := Apply(s, e);
            && Inv(t) && Closed(t) && t.held == s.held
            && Generation(t) + Slack(t) <= Generation(s) + Slack(s)
  {
    StepKeepsInv(s, e);
  }

  lemma {:induction false} ClosedRun(s: State, events: seq<Event>)
    requires Inv(s) && Closed(s) && Run(s, events).Some?
    ensures var t := Run(s, events).value;
            && Inv(t) && Closed(t) && t.held == s.held
            && Generation(t) + Slack(t) <= Generation(s) + Slack(s)
    decreases events
  {
    if events != [] {
      ClosedStep(s, events[0]);
      ClosedRun(Apply(s, events[0]), events[1..]);
    }
  }

  /**
   Once D1 has revoked the family, no call whose D1 write comes later returns a token, in any
   interleaving and even if no revocation ever reaches the Durable Object; the object itself can
   advance at most once more.
   */
  lemma RevokedReturnsNothing(events: seq<Event>, more: seq<Event>)
    requires Run(START, events).Some? && Closed(Run(START, events).value)
    requires Run(Run(START, events).value, more).Some?
    ensures var s := Run(START, events).value;
            var t := Run(s, more).value;
            t.held == s.held && Closed(t) && Generation(t) <= Generation(s) + 1
  {
    RunKeepsInv(START, events);
    ClosedRun(Run(START, events).value, more);
  }

  /**
   D1 never lags the Durable Object by more than one rotation. On a row that D1 has not revoked,
   with no mirror write in flight, the two agree if and only if no mirror write was lost; and a
   family that lost one can never rotate again.
   */
  lemma MirrorAgreement(events: seq<Event>)
    requires Run(START, events).Some?
    ensures var s := Run(START, events).value;
            && (s.row.Present? && s.family.meta.Some? ==> InSync(s) || OneBehind(s))
            && (Live(s.row) && s.family.meta.Some? && Quiet(s) ==> (InSync(s) <==> !s.missed))
            && (s.missed ==> NothingRotates(s))
  {
    RunKeepsInv(START, events);
  }

  /** A lost mirror write whose compensation also fails: nothing in flight, neither store revoked, no agreement. */
  lemma DisagreementAtRest() returns (events: seq<Event>)
    ensures Run(START, events).Some?
    ensures var s := Run(START, events).value;
            && s.calls == map[] && Live(s.row)
            && s.family.meta.Some? && !s.family.meta.value.revoked
            && OneBehind(s) && !InSync(s)
  {
    var q := Request(1, 2, 7, 0, 0);
    events := [IssueInit(0, 7, 0, 1, 100, 0), IssueInsert(0), RotateFamily(1, q), MirrorThrew(1, false, 0),
               Compensate(1, false)];
    var s1 := Apply(START, events[0]);
    var s2 := Apply(s1, events[1]);
    var s3 := Apply(s2, events[2]);
    assert s3.calls == map[1 := Mirroring(2, 0, 1)];
    var s4 := Apply(s3, events[3]);
    var s5 := Apply(s4, events[4]);
    assert Run(s5, []) == Some(s5);
    assert Run(s4, events[4..]) == Some(s5) by { assert events[4..] == [events[4]]; }
    assert Run(s3, events[3..]) == Some(s5) by { assert events[3..][1..] == events[4..]; }
    assert Run(s2, events[2..]) == Some(s5) by { assert events[2..][1..] == events[3..]; }
    assert Run(s1, events[1..]) == Some(s5) by { assert events[1..][1..] == events[2..]; }
  }
}
