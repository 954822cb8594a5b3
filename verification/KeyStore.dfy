/**
 The mutable state of src/tokens/key-rotation.ts as objects: the versioned `signing_key_state` row
 and an isolate's cached ring. Their methods are the atomic pieces that the step system composes, and
 their contracts say which step each of them is.
 */
module KeyStore {
  import opened Wrappers
  import opened Keyring
  import opened KeyRotation

  /** The module-level cache of one isolate. */
  class IsolateCache {
    var keyringCache: Option<(Ring, int)>

    constructor ()
      ensures keyringCache.None?
    {
      keyringCache := None;
    }

    /** The cache holds what the step system says it holds for isolate `i`. */
    ghost predicate Matches(s: State, i: Isolate)
      reads this
    {
      i in s.caches && keyringCache == Some((s.caches[i].copy.ring, s.caches[i].expiresAt))
    }

    /** Caches the ring for 30 s, as the step `Remember` does. */
    method RememberKeyring(ring: Ring, nowMs: int)
      modifies this
      ensures keyringCache == Some((ring, nowMs + 30_000))
      ensures forall p: Params, s: State, i: Isolate, c: Copy ::
                Enabled(p, s, Remember(i, c)) && c.ring == ring && s.clock == nowMs ==>
                  Matches(Apply(p, s, Remember(i, c)), i)
    {
      keyringCache := Some((ring, nowMs + KEYRING_CACHE_TTL_MS));
    }

    /**
     The cached ring while it is younger than its time to live, which is exactly while the step
     system has the isolate use its cache; an expired one is forgotten.
     */
    method CachedKeyring(nowMs: int) returns (ring: Option<Ring>)
      modifies this
      ensures ring.Some? <==> old(keyringCache).Some? && nowMs < old(keyringCache).value.1
      ensures ring.Some? ==> ring.value == old(keyringCache).value.0 && keyringCache == old(keyringCache)
      ensures ring.None? ==> keyringCache.None?
      ensures forall p: Params, s: State, i: Isolate ::
                old(Matches(s, i)) && s.clock == nowMs ==>
                  && (ring.Some? <==> InUse(p, s, FromCache(i)))
                  && (ring.Some? ==> ring.value == CopyAt(s, FromCache(i)).ring)
    {
      if keyringCache.None? || keyringCache.value.1 <= nowMs {
        keyringCache := None;
        return None;
      }
      return Some(keyringCache.value.0);
    }
  }

  /** The row as a load finds it; a ring that could not sign is an error. */
  datatype Loaded = Found(current: Option<Row>) | Unusable

  /** What a rotation reports: the ring it kept, its commit, a lost race or a missing staged key. */
  datatype Outcome = Kept | Committed(ring: Ring, version: nat) | LostRace | PendingMissing

  /** The single row of `signing_key_state`, or no row before first boot. */
  class SigningKeyTable {
    var row: Option<Row>

    constructor ()
      ensures row.None?
    {
      row := None;
    }

    /** The load half of a rotation: what the step `Begin` records for the attempt. */
    method LoadPersistedKeyring() returns (r: Loaded)
      ensures r.Unusable? <==>
                row.Some? && forall k :: k in row.value.ring.keys && k.kid == row.value.ring.activeKid ==>
                  k.retiredAt.Some? || !k.hasPrivate
      ensures r.Found? ==> r.current == row
    {
      assert row.Some? ==> (HasUsable(row.value.ring.keys, row.value.ring.activeKid) <==>
        exists k :: k in row.value.ring.keys && Usable(k, row.value.ring.activeKid));
      if row.Some? && !HasUsable(row.value.ring.keys, row.value.ring.activeKid) {
        return Unusable;
      }
      return Found(row);
    }

    /**
     Insert version 1, or replace exactly the expected version, and remember the ring in the writing
     isolate; `None` reports a lost race, which changes nothing.
     */
    method PersistKeyring(ring: Ring, expected: Option<nat>, cache: IsolateCache, nowMs: int)
      returns (version: Option<nat>)
      modifies this, cache
      ensures version.Some? <==>
                (if expected.None? then old(row).None?
                 else old(row).Some? && old(row).value.version == expected.value)
      ensures version.Some? ==> version.value == if expected.None? then 1 else expected.value + 1
      ensures row == if version.Some? then Some(Row(ring, version.value)) else old(row)
      ensures cache.keyringCache ==
                if version.Some? then Some((ring, nowMs + 30_000)) else old(cache.keyringCache)
    {
      if expected.None? {
        if row.Some? {
          return None;
        }
        row := Some(Row(ring, 1));
        cache.RememberKeyring(ring, nowMs);
        return Some(1);
      }
      if row.None? || row.value.version != expected.value {
        return None;
      }
      row := Some(Row(ring, expected.value + 1));
      cache.RememberKeyring(ring, nowMs);
      return Some(expected.value + 1);
    }

    /**
     The write half of one rotation, on a ring loaded earlier. It changes the row exactly as the
     commit step of the step system does, whatever happened in between, and reports a commit exactly
     when that step wins.
     */
    method RotatePersistedKeyring(loaded: Option<Row>, newKid: Kid, rotatedAt: int, cache: IsolateCache, nowMs: int)
      returns (outcome: Outcome)
      modifies this, cache
      ensures forall s: State ::
                s.row == old(row) && newKid in s.attempts
                && s.attempts[newKid] == Attempt(loaded, rotatedAt)
                ==> && row == CommitStep(s, newKid).row
                    && (outcome.Committed? <==> Wins(s, newKid))
                    && (outcome.LostRace? <==> Decision(s, newKid).Write? && !Wins(s, newKid))
                    && (outcome.PendingMissing? <==> Decision(s, newKid).PendingUnavailable?)
      ensures outcome.Committed? ==>
                && row == Some(Row(outcome.ring, outcome.version))
                && cache.keyringCache == Some((outcome.ring, nowMs + 30_000))
      ensures !outcome.Committed? ==> row == old(row) && cache.keyringCache == old(cache.keyringCache)
    {
      var r := Rotate(if loaded.None? then None else Some(loaded.value.ring), newKid, rotatedAt);
      match r {
        case Keep => return Kept;
        case PendingUnavailable => return PendingMissing;
        case Write(ring) =>
          var expected := if loaded.None? then None else Some(loaded.value.version);
          var version := PersistKeyring(ring, expected, cache, nowMs);
          return if version.Some? then Committed(ring, version.value) else LostRace;
      }
    }
  }
}
