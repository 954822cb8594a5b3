/**
 The Durable Object's answers and effects, each stated on the stored fields and the request alone:
 when every answer is given, and what every stored key holds afterwards.
 */
module RefreshAnswers {
  import opened Wrappers
  import opened RefreshFamily

  lemma InitIsExact(f: Family, clientId: ClientId, scope: Scope, hash: Hash, expiresAt: int, now: int)
    ensures var after := Init(f, clientId, scope, hash, expiresAt, now);
            && after.alarmAt == Some(expiresAt * 1000 + 60_000)
            && after.used == f.used && after.legacyUsed == f.legacyUsed
            && if f.meta.Some? then after.meta == f.meta && after.currentHash == f.currentHash
               else after.meta == Some(Meta(clientId, scope, expiresAt, now, 0, false, Some(now)))
                    && after.currentHash == Some(hash)
  {
  }

  /** Burning sets the mark and touches nothing else. */
  lemma BurnIsExact(f: Family)
    ensures Burn(f).currentHash == f.currentHash && Burn(f).used == f.used && Burn(f).legacyUsed == f.legacyUsed
    ensures Burn(f).alarmAt == f.alarmAt && (f.meta.None? ==> Burn(f).meta.None?)
    ensures f.meta.Some? ==>
              var m := f.meta.value;
              Burn(f).meta ==
                Some(Meta(m.clientId, m.scope, m.absoluteExpiresAt, m.createdAt, m.generation, true, m.lastRotatedAt))
  {
  }

  /** No pause is due, or it is over. */
  predicate PauseOver(m: Meta, now: int) {
    m.generation == 0 || now - (if m.lastRotatedAt.Some? then m.lastRotatedAt.value else m.createdAt) >= 10
  }

  /** The right client asks for a family that is unrevoked and within its life. */
  predicate Open(f: Family, q: Request) {
    && f.meta.Some? && f.currentHash.Some?
    && f.meta.value.clientId == q.clientId && !f.meta.value.revoked && q.now <= f.meta.value.absoluteExpiresAt
  }

  /**
   A rotation is granted exactly to the right client, for the current token of an unrevoked family
   within its life, below generation 10,000, and at generation 0 or 10 s after the last rotation. It
   then stores the new token, the requested scope, the next generation and its time, and marks the
   presented token as used.
   */
  lemma RotatedIsExact(f: Family, q: Request)
    ensures Answer(f, q).Rotated? <==>
            && Open(f, q) && q.presented == f.currentHash.value
            && f.meta.value.generation < 10_000 && PauseOver(f.meta.value, q.now)
    ensures Answer(f, q).Rotated? ==>
              var m := f.meta.value;
              var next := Meta(m.clientId, q.scope, m.absoluteExpiresAt, m.createdAt, m.generation + 1, false, Some(q.now));
              && Answer(f, q) == Rotated(next)
              && After(f, q) == Family(Some(next), Some(q.newHash), f.used + {q.presented}, f.legacyUsed, f.alarmAt)
  {
  }

  /** Each refusal, exactly when it is given. */
  lemma RefusalsAreExact(f: Family, q: Request)
    ensures Answer(f, q).Revoked? <==>
            f.meta.Some? && f.currentHash.Some? && f.meta.value.clientId == q.clientId && f.meta.value.revoked
    ensures Answer(f, q).Expired? <==>
            && f.meta.Some? && f.currentHash.Some? && f.meta.value.clientId == q.clientId
            && !f.meta.value.revoked && q.now > f.meta.value.absoluteExpiresAt
    ensures Answer(f, q).GenerationLimit? <==>
            Open(f, q) && q.presented == f.currentHash.value && f.meta.value.generation >= 10_000
    ensures Answer(f, q).TooSoon? <==>
            && Open(f, q) && q.presented == f.currentHash.value
            && f.meta.value.generation < 10_000 && !PauseOver(f.meta.value, q.now)
    ensures Answer(f, q).ReuseDetected? <==>
            Open(f, q) && q.presented != f.currentHash.value && (q.presented in f.used || q.presented in f.legacyUsed)
    ensures Answer(f, q).Invalid? <==>
            || f.meta.None? || f.currentHash.None? || f.meta.value.clientId != q.clientId
            || (Open(f, q) && q.presented != f.currentHash.value && q.presented !in f.used && q.presented !in f.legacyUsed)
  {
  }

  /** Reuse and the generation limit burn the family; every other refusal changes nothing. */
  lemma RefusalEffectsAreExact(f: Family, q: Request)
    requires !Answer(f, q).Rotated?
    ensures if Answer(f, q).ReuseDetected? || Answer(f, q).GenerationLimit?
            then After(f, q) == Burn(f) && f.meta.Some? else After(f, q) == f
  {
  }

  /** No run rotates a family after its absolute expiry. */
  lemma RotationsWithinLife(start: Family, events: seq<Event>, i: nat)
    requires Startable(start) && Run(start, events).Some? && i < |Run(start, events).value.times|
    ensures Run(start, events).value.times[i] <= start.meta.value.absoluteExpiresAt
  {
    RunKeepsChain(start, events);
    var times := Run(start, events).value.times;
    assert times[i] in times;
  }
}
