/**
 The Durable Object of one refresh-token family (src/do/RefreshTokenFamilyDO.ts): the serialized
 authority that rotates the current token and burns the family when a used one comes back.
 Token hashes are numbers; hashing is injective.
 */
module RefreshFamily {
  import opened Arithmetic
  import opened Wrappers

  const MINIMUM_ROTATION_INTERVAL_SECONDS := 10
  const MAXIMUM_GENERATION := 10_000
  const ALARM_SLACK_MS := 60_000

  type Hash = nat
  type ClientId = nat
  type Scope = nat

  datatype Meta = Meta(
    clientId: ClientId,
    scope: Scope,
    absoluteExpiresAt: int,
    createdAt: int,
    generation: nat,
    revoked: bool,
    lastRotatedAt: Option<int>)

  /**
   The stored keys and the alarm: `meta` and `currentHash` are set together, `used:` keys mark
   rotated hashes, and families from before those keys keep a list of used hashes.
   */
  datatype Family = Family(
    meta: Option<Meta>,
    currentHash: Option<Hash>,
    used: set<Hash>,
    legacyUsed: set<Hash>,
    alarmAt: Option<int>)

  const EMPTY := Family(None, None, {}, {}, None)

  datatype Request = Request(presented: Hash, newHash: Hash, clientId: ClientId, scope: Scope, now: int)

  datatype RotateResult =
    | Rotated(meta: Meta)
    | ReuseDetected
    | TooSoon(retryAfterSeconds: int)
    | GenerationLimit
    | Revoked
    | Expired
    | Invalid

  /** Families from before the field was stored count from their creation. */
  function LastRotated(meta: Meta): int {
    if meta.lastRotatedAt.Some? then meta.lastRotatedAt.value else meta.createdAt
  }

  function Elapsed(meta: Meta, now: int): int { Max(0, now - LastRotated(meta)) }

  /** Every hash that counts as used. */
  function AllUsed(f: Family): set<Hash> { f.used + f.legacyUsed }

  function Burn(f: Family): Family {
    if f.meta.None? then f else f.(meta := Some(f.meta.value.(revoked := true)))
  }

  function Init(f: Family, clientId: ClientId, scope: Scope, hash: Hash, expiresAt: int, now: int): Family {
    var alarm := Some(expiresAt * 1000 + ALARM_SLACK_MS);
    if f.meta.Some? then f.(alarmAt := alarm)
    else
      f.(meta := Some(Meta(clientId, scope, expiresAt, now, 0, false, Some(now))),
         currentHash := Some(hash),
         alarmAt := alarm)
  }

  function Advance(f: Family, q: Request): Family
    requires f.meta.Some? && f.currentHash.Some?
  {
    var m := f.meta.value;
    f.(meta := Some(m.(scope := q.scope, generation := m.generation + 1, lastRotatedAt := Some(q.now))),
       currentHash := Some(q.newHash),
       used := f.used + {f.currentHash.value})
  }

  /** The answer to a rotation request. */
  function Answer(f: Family, q: Request): RotateResult {
    if f.meta.None? || f.currentHash.None? then Invalid
    else
      var m := f.meta.value;
      if m.clientId != q.clientId then Invalid
      else if m.revoked then Revoked
      else if q.now > m.absoluteExpiresAt then Expired
      else if q.presented == f.currentHash.value then
        if m.generation >= MAXIMUM_GENERATION then GenerationLimit
        else if m.generation > 0 && Elapsed(m, q.now) < MINIMUM_ROTATION_INTERVAL_SECONDS then
          TooSoon(MINIMUM_ROTATION_INTERVAL_SECONDS - Elapsed(m, q.now))
        else Rotated(Advance(f, q).meta.value)
      else if q.presented in AllUsed(f) then ReuseDetected
      else Invalid
  }

  /** What the request leaves behind. */
  function After(f: Family, q: Request): Family {
    match Answer(f, q)
    case Rotated(_) => Advance(f, q)
    case ReuseDetected => Burn(f)
    case GenerationLimit => Burn(f)
    case _ => f
  }

  class RefreshTokenFamily {
    var meta: Option<Meta>
    var currentHash: Option<Hash>
    var used: set<Hash>
    var legacyUsed: set<Hash>
    var alarmAt: Option<int>

    ghost function View(): Family
      reads this
    {
      Family(meta, currentHash, used, legacyUsed, alarmAt)
    }

    constructor ()
      ensures View() == EMPTY
    {
      meta, currentHash, used, legacyUsed, alarmAt := None, None, {}, {}, None;
    }

    method InitFamily(clientId: ClientId, scope: Scope, hash: Hash, expiresAt: int, now: int)
      modifies this
      ensures View() == Init(old(View()), clientId, scope, hash, expiresAt, now)
    {
      if meta.None? {
        meta := Some(Meta(clientId, scope, expiresAt, now, 0, false, Some(now)));
        currentHash := Some(hash);
      }
      alarmAt := Some(expiresAt * 1000 + ALARM_SLACK_MS);
    }

    method Rotate(q: Request) returns (r: RotateResult)
      modifies this
      ensures r == Answer(old(View()), q) && View() == After(old(View()), q)
    {
      if meta.None? || currentHash.None? {
        return Invalid;
      }
      var m := meta.value;
      if m.clientId != q.clientId {
        return Invalid;
      }
      if m.revoked {
        return Revoked;
      }
      if q.now > m.absoluteExpiresAt {
        return Expired;
      }
      if q.presented == currentHash.value {
        if m.generation >= MAXIMUM_GENERATION {
          meta := Some(m.(revoked := true));
          return GenerationLimit;
        }
        var lastRotatedAt := if m.lastRotatedAt.Some? then m.lastRotatedAt.value else m.createdAt;
        var elapsed := Max(0, q.now - lastRotatedAt);
        if m.generation > 0 && elapsed < MINIMUM_ROTATION_INTERVAL_SECONDS {
          return TooSoon(MINIMUM_ROTATION_INTERVAL_SECONDS - elapsed);
        }
        var next := m.(scope := q.scope, generation := m.generation + 1, lastRotatedAt := Some(q.now));
        used := used + {currentHash.value};
        meta := Some(next);
        currentHash := Some(q.newHash);
        return Rotated(next);
      }
      if q.presented in legacyUsed || q.presented in used {
        meta := Some(m.(revoked := true));
        return ReuseDetected;
      }
      return Invalid;
    }

    method Revoke()
      modifies this
      ensures View() == Burn(old(View()))
    {
      if meta.Some? {
        meta := Some(meta.value.(revoked := true));
      }
    }

    method Alarm()
      modifies this
      ensures View() == EMPTY
    {
      meta, currentHash, used, legacyUsed, alarmAt := None, None, {}, {}, None;
    }
  }

  // ---- Runs of one family ----------------------------------------------------

  datatype Event =
    | Rotate(request: Request)
    | Revoke
    | Alarm

  /** A run: the family, every hash that was ever current, and what each rotation presented and when. */
  datatype Trace = Trace(family: Family, chain: seq<Hash>, spent: seq<Hash>, times: seq<int>)

  /** New token hashes are fresh: no hash is generated twice. */
  predicate Enabled(start: Family, t: Trace, e: Event) {
    e.Rotate? ==> e.request.newHash !in t.chain && e.request.newHash !in AllUsed(start)
  }

  /** One event; the alarm may fire at any time. */
  function Step(t: Trace, e: Event): Trace {
    match e
    case Rotate(q) =>
      if Answer(t.family, q).Rotated? then
        Trace(After(t.family, q), t.chain + [q.newHash], t.spent + [q.presented], t.times + [q.now])
      else t.(family := After(t.family, q))
    case Revoke => t.(family := Burn(t.family))
    case Alarm => t.(family := EMPTY)
  }

  /** A family to start from: a new one, or one stored by an older version of the program. */
  predicate Startable(f: Family) {
    && f.meta.Some? && f.currentHash.Some? && f.currentHash.value !in AllUsed(f)
    && f.meta.value.generation <= MAXIMUM_GENERATION
  }

  lemma InitIsStartable(clientId: ClientId, scope: Scope, hash: Hash, expiresAt: int, now: int)
    ensures var f := Init(EMPTY, clientId, scope, hash, expiresAt, now);
            Startable(f) && f.meta.value.generation == 0 && AllUsed(f) == {}
  {
  }

  function Run(start: Family, events: seq<Event>): Option<Trace>
    requires start.currentHash.Some?
  {
    if events == [] then Some(Trace(start, [start.currentHash.value], [], []))
    else
      var before := Run(start, events[..|events| - 1]);
      var e := events[|events| - 1];
      if before.Some? && Enabled(start, before.value, e) then Some(Step(before.value, e)) else None
  }

  predicate Distinct(s: seq<Hash>) {
    forall i, j :: 0 <= i < j < |s| ==> s[i] != s[j]
  }

  function Elements(s: seq<Hash>): set<Hash> {
    set h | h in s
  }

  predicate Spaced(times: seq<int>) {
    forall i :: 0 < i < |times| ==> times[i - 1] + MINIMUM_ROTATION_INTERVAL_SECONDS <= times[i]
  }

  /**
   The hashes that were ever current form a duplicate-free chain, one link longer than the number of
   rotations, and avoid every hash used before; the rotations presented exactly the links before the
   last, in that order, and are spaced.
   */
  ghost predicate LinksInv(start: Family, t: Trace) {
    && |t.chain| == |t.times| + 1
    && t.spent == t.chain[..|t.chain| - 1]
    && Distinct(t.chain)
    && Elements(t.chain) !! AllUsed(start)
    && Spaced(t.times)
  }

  /**
   Every rotation lies within the family's life. Unless it was deleted the object agrees: its
   generation counts the rotations, its current hash is the last link, and its used set is exactly
   what was used before and the other links.
   */
  ghost predicate ObjectInv(start: Family, t: Trace)
    requires Startable(start)
  {
    && start.meta.value.generation + |t.times| <= MAXIMUM_GENERATION
    && (forall at :: at in t.times ==> at <= start.meta.value.absoluteExpiresAt)
    && (t.family.meta.None? ==> t.family == EMPTY)
    && (t.family.meta.Some? ==>
          && t.family.meta.value.absoluteExpiresAt == start.meta.value.absoluteExpiresAt
          && t.family.meta.value.clientId == start.meta.value.clientId
          && t.family.meta.value.generation == start.meta.value.generation + |t.times|
          && t.chain != [] && t.family.currentHash == Some(t.chain[|t.chain| - 1])
          && AllUsed(t.family) == AllUsed(start) + Elements(t.spent)
          && (t.times != [] ==> t.family.meta.value.lastRotatedAt == Some(t.times[|t.times| - 1])))
  }

  ghost predicate ChainInv(start: Family, t: Trace)
    requires Startable(start)
  {
    LinksInv(start, t) && ObjectInv(start, t)
  }

  /** What a granted rotation implies. */
  lemma RotatedMeans(f: Family, q: Request)
    requires Answer(f, q).Rotated?
    ensures f.meta.Some? && f.currentHash == Some(q.presented) && After(f, q) == Advance(f, q)
    ensures f.meta.value.generation < MAXIMUM_GENERATION && q.now <= f.meta.value.absoluteExpiresAt
    ensures f.meta.value.generation > 0 ==>
              LastRotated(f.meta.value) + MINIMUM_ROTATION_INTERVAL_SECONDS <= q.now
  {
  }

  /** A refused rotation leaves the family as it was, or burned. */
  lemma RefusedMeans(f: Family, q: Request)
    requires !Answer(f, q).Rotated?
    ensures After(f, q) == f || After(f, q) == Burn(f)
  {
  }

  lemma LinksGrow(start: Family, t: Trace, f: Family, q: Request)
    requires LinksInv(start, t) && Enabled(start, t, Rotate(q)) && q.presented == t.chain[|t.chain| - 1]
    requires t.times != [] ==> t.times[|t.times| - 1] + MINIMUM_ROTATION_INTERVAL_SECONDS <= q.now
    ensures LinksInv(start, Trace(f, t.chain + [q.newHash], t.spent + [q.presented], t.times + [q.now]))
  {
    var chain := t.chain + [q.newHash];
    assert chain[..|chain| - 1] == t.chain == t.spent + [q.presented];
    assert Elements(chain) == Elements(t.chain) + {q.newHash};
    DistinctSnoc(t.chain, q.newHash);
    SpacedSnoc(t.times, q.now);
  }

  lemma DistinctSnoc(s: seq<Hash>, h: Hash)
    requires Distinct(s) && h !in s
    ensures Distinct(s + [h])
  {
  }

  lemma SpacedSnoc(times: seq<int>, at: int)
    requires Spaced(times) && (times != [] ==> times[|times| - 1] + MINIMUM_ROTATION_INTERVAL_SECONDS <= at)
    ensures Spaced(times + [at])
  {
  }

  lemma ObjectGrows(start: Family, t: Trace, q: Request)
    requires Startable(start) && ChainInv(start, t) && Answer(t.family, q).Rotated?
    ensures ObjectInv(start, Trace(Advance(t.family, q), t.chain + [q.newHash],
                                   t.spent + [q.presented], t.times + [q.now]))
  {
    RotatedMeans(t.family, q);
    assert Elements(t.spent + [q.presented]) == Elements(t.spent) + {q.presented};
  }

  lemma StepKeepsChain(start: Family, t: Trace, e: Event)
    requires Startable(start) && ChainInv(start, t) && Enabled(start, t, e)
    ensures ChainInv(start, Step(t, e))
  {
    if e.Rotate? {
      if Answer(t.family, e.request).Rotated? {
        RotatedMeans(t.family, e.request);
        LinksGrow(start, t, After(t.family, e.request), e.request);
        ObjectGrows(start, t, e.request);
      } else {
        RefusedMeans(t.family, e.request);
      }
    }
  }

  lemma {:induction false} RunKeepsChain(start: Family, events: seq<Event>)
    requires Startable(start) && Run(start, events).Some?
    ensures ChainInv(start, Run(start, events).value)
  {
    if events != [] {
      RunKeepsChain(start, events[..|events| - 1]);
      StepKeepsChain(start, Run(start, events[..|events| - 1]).value, events[|events| - 1]);
    }
  }

  /** In any run each hash yields at most one rotation. */
  lemma OneRotationPerHash(start: Family, events: seq<Event>, i: nat, j: nat)
    requires Startable(start) && Run(start, events).Some? && i < j < |Run(start, events).value.spent|
    ensures var spent := Run(start, events).value.spent; spent[i] != spent[j]
  {
    RunKeepsChain(start, events);
    var t := Run(start, events).value;
    assert t.spent[i] == t.chain[i] && t.spent[j] == t.chain[j];
  }

  /** Presenting any hash that was once current, but no longer is, burns a live family for good. */
  lemma ReuseBurns(start: Family, t: Trace, q: Request)
    requires Startable(start) && ChainInv(start, t)
    requires q.presented in AllUsed(start) || q.presented in t.spent
    requires t.family.meta.Some? && !t.family.meta.value.revoked
    requires q.clientId == t.family.meta.value.clientId && q.now <= t.family.meta.value.absoluteExpiresAt
    ensures Answer(t.family, q) == ReuseDetected && After(t.family, q).meta.value.revoked
  {
    var last := |t.chain| - 1;
    assert t.chain[last] in Elements(t.chain);
    if q.presented in t.spent {
      var i :| 0 <= i < |t.spent| && t.spent[i] == q.presented;
      assert t.chain[i] != t.chain[last];
    }
    assert q.presented in AllUsed(t.family);
  }

  /** No rotation succeeds on a family that is burned or deleted. */
  predicate Dead(f: Family) {
    f.meta.None? || f.meta.value.revoked
  }

  /** Revocation is absorbing: whatever follows, a dead family stays dead and its chain never grows. */
  lemma {:induction false} DeadForever(start: Family, events: seq<Event>, more: seq<Event>)
    requires start.currentHash.Some? && Run(start, events).Some? && Run(start, events + more).Some?
    requires Dead(Run(start, events).value.family)
    ensures Dead(Run(start, events + more).value.family)
    ensures Run(start, events + more).value.chain == Run(start, events).value.chain
  {
    if more == [] {
      assert events + more == events;
    } else {
      var less := more[..|more| - 1];
      assert (events + more)[..|events + more| - 1] == events + less;
      DeadForever(start, events, less);
    }
  }

  // ---- The pace of rotation --------------------------------------------------

  lemma {:induction false} SpacedFromFirst(times: seq<int>, i: nat)
    requires Spaced(times) && i < |times|
    ensures times[i] >= times[0] + MINIMUM_ROTATION_INTERVAL_SECONDS * i
  {
    if i > 0 {
      SpacedFromFirst(times, i - 1);
    }
  }

  function CountUpTo(times: seq<int>, at: int): nat {
    if times == [] then 0
    else CountUpTo(times[..|times| - 1], at) + (if times[|times| - 1] <= at then 1 else 0)
  }

  lemma {:induction false} CountBound(times: seq<int>, at: int)
    requires Spaced(times) && times != [] && times[0] <= at
    ensures CountUpTo(times, at) <= |times|
    ensures CountUpTo(times, at) <= 1 + (at - times[0]) / MINIMUM_ROTATION_INTERVAL_SECONDS
  {
    var last := |times| - 1;
    var rest := times[..last];
    if last == 0 {
      assert CountUpTo(rest, at) == 0;
    } else {
      CountBound(rest, at);
      SpacedFromFirst(times, last);
      if times[last] <= at {
        assert last <= (at - times[0]) / MINIMUM_ROTATION_INTERVAL_SECONDS;
        assert CountUpTo(rest, at) <= |rest|;
      }
    }
  }

  /**
   In any run, up to any time after its first rotation a family of generation g has rotated at most
   min(10000 - g, 1 + floor((at - first) / 10)) times; a new family has g = 0. The clock need not be
   monotone.
   */
  lemma RotationPace(start: Family, events: seq<Event>, at: int)
    requires Startable(start) && Run(start, events).Some?
    ensures var times := Run(start, events).value.times;
            times != [] && times[0] <= at ==>
              && CountUpTo(times, at) <= MAXIMUM_GENERATION - start.meta.value.generation
              && CountUpTo(times, at) <= 1 + (at - times[0]) / MINIMUM_ROTATION_INTERVAL_SECONDS
  {
    RunKeepsChain(start, events);
    var times := Run(start, events).value.times;
    if times != [] && times[0] <= at {
      CountBound(times, at);
    }
  }

  /**
   "Too soon" changes nothing, and the wait it names is exact: the same token rotates at a later
   time, within the family's life, if and only if that wait has passed, counted from the request, or
   from the last rotation if the clock has fallen behind it.
   */
  lemma TooSoonWaitIsExact(f: Family, q: Request, later: Request)
    requires Answer(f, q).TooSoon?
    requires later.presented == q.presented && later.clientId == q.clientId
    requires later.now <= f.meta.value.absoluteExpiresAt
    ensures After(f, q) == f
    ensures Answer(f, later).Rotated? <==>
              later.now >= Max(q.now, LastRotated(f.meta.value)) + Answer(f, q).retryAfterSeconds
  {
  }
}
