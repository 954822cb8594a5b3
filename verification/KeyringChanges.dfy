/**
 What one rotation writes, key by key, and that rotation makes progress: a staged key is activated
 once it has been public for 120 s, and an active key that is due is replaced in two rotations.
 */
module KeyringChanges {
  import opened Wrappers
  import opened Seqs
  import opened Keyring

  // ---- What a rotation writes ----------------------------------------------------

  lemma FirstBootIsExact(newKid: Kid, at: int)
    ensures Rotate(None, newKid, at) == Write(Ring(newKid, None, None, [Key(newKid, true, at, None)]))
  {
  }

  /** A well-formed ring is kept exactly while its staged key is younger than 120 s. */
  lemma KeptIsExact(ring: Ring, newKid: Kid, at: int)
    requires WellFormed(ring)
    ensures Rotate(Some(ring), newKid, at).Keep? <==> ring.pendingSince.Some? && at - ring.pendingSince.value < 120
    ensures !Rotate(Some(ring), newKid, at).PendingUnavailable?
  {
  }

  /**
   Of any ring, well-formed or not: a staged key that has waited 120 s is reported missing exactly when
   the ring holds no unretired key of its kid with private material.
   */
  lemma MissingIsExact(ring: Ring, newKid: Kid, at: int)
    ensures Rotate(Some(ring), newKid, at).PendingUnavailable? <==>
            && ring.pendingKid.Some? && ring.pendingSince.Some? && at - ring.pendingSince.value >= 120
            && forall k :: k in ring.keys && k.kid == ring.pendingKid.value ==> k.retiredAt.Some? || !k.hasPrivate
  {
    if ring.pendingKid.Some? {
      assert HasUsable(ring.keys, ring.pendingKid.value) <==>
        exists k :: k in ring.keys && k.kid == ring.pendingKid.value && k.retiredAt.None? && k.hasPrivate;
    }
  }

  /** In a well-formed ring only retired keys are stripped, and they have nothing to strip. */
  lemma StripChangesNothing(ring: Ring, k: Key)
    requires WellFormed(ring) && k in ring.keys
    ensures Strip(k) == k
  {
    if k.kid == ring.activeKid || Some(k.kid) == ring.pendingKid {
      UsableIsNotRetired(ring, k.kid, k);
    }
  }

  /** Retired less than 91 days ago, or not at all. */
  predicate Recent(k: Key, at: int) {
    k.retiredAt.None? || at - k.retiredAt.value < 7_862_400
  }

  /**
   With nothing staged, the written ring keeps its active kid and stages exactly the fresh key since
   `at`; its keys are the fresh one, first, and every key not retired for 91 days, as it was.
   */
  lemma StagingIsExact(ring: Ring, newKid: Kid, at: int)
    requires WellFormed(ring) && ring.pendingKid.None? && newKid !in Kids(ring.keys)
    ensures Rotate(Some(ring), newKid, at).Write?
    ensures var after := Rotate(Some(ring), newKid, at).ring;
            && after.activeKid == ring.activeKid
            && after.pendingKid == Some(newKid) && after.pendingSince == Some(at)
            && after.keys != [] && after.keys[0] == Key(newKid, true, at, None)
            && forall k :: k in after.keys <==>
                 k == Key(newKid, true, at, None) || (k in ring.keys && Recent(k, at))
  {
    var kept := KeepUnexpired(Map(Strip, ring.keys), at);
    forall k ensures k in kept <==> k in ring.keys && Recent(k, at) {
      if k in kept {
        var origin := StrippedFrom(ring.keys, at, k);
        StripChangesNothing(ring, origin);
      }
      if k in ring.keys && Recent(k, at) {
        StripChangesNothing(ring, k);
        MapIn(Strip, ring.keys, k);
      }
    }
  }

  /** The old active key as it is retired: public half only, with the second of its retirement. */
  predicate Superseded(ring: Ring, k: Key, at: int) {
    exists prior :: prior in ring.keys && prior.kid == ring.activeKid
      && k == Key(prior.kid, false, prior.createdAt, Some(at))
  }

  lemma OthersUnchanged(ring: Ring, at: int, k: Key)
    requires WellFormed(ring) && ring.pendingKid.Some? && k in ring.keys && k.kid != ring.activeKid
    ensures Activate(k, ring.activeKid, ring.pendingKid.value, at) == k
  {
    StripChangesNothing(ring, k);
    if k.kid == ring.pendingKid.value {
      UsableIsNotRetired(ring, k.kid, k);
    }
  }

  /**
   With a key staged for 120 s or more, the written ring has it active and nothing staged; its keys
   are the old active key, retired at `at`, and every other key not retired for 91 days, as it was.
   */
  lemma ActivationIsExact(ring: Ring, newKid: Kid, at: int)
    requires WellFormed(ring) && ring.pendingKid.Some? && at - ring.pendingSince.value >= 120
    ensures Rotate(Some(ring), newKid, at).Write?
    ensures var after := Rotate(Some(ring), newKid, at).ring;
            && after.activeKid == ring.pendingKid.value
            && after.pendingKid.None? && after.pendingSince.None?
            && forall k :: k in after.keys <==>
                 Superseded(ring, k, at) || (k in ring.keys && k.kid != ring.activeKid && Recent(k, at))
  {
    ActivationKeepsWellFormed(ring, newKid, at);
    var next := ring.pendingKid.value;
    forall k ensures k in ActivatedKeys(ring, next, at) <==>
        Superseded(ring, k, at) || (k in ring.keys && k.kid != ring.activeKid && Recent(k, at)) {
      ActivatedKeyIsExact(ring, at, k);
    }
  }

  lemma ActivatedKeyIsExact(ring: Ring, at: int, k: Key)
    requires WellFormed(ring) && ring.pendingKid.Some?
    ensures k in ActivatedKeys(ring, ring.pendingKid.value, at) <==>
            Superseded(ring, k, at) || (k in ring.keys && k.kid != ring.activeKid && Recent(k, at))
  {
    var next := ring.pendingKid.value;
    if k in ActivatedKeys(ring, next, at) {
      var origin := ActivatedFrom(ring, next, at, k);
      if origin.kid != ring.activeKid {
        OthersUnchanged(ring, at, origin);
      }
    }
    if Superseded(ring, k, at) {
      var prior :| prior in ring.keys && prior.kid == ring.activeKid
        && k == Key(prior.kid, false, prior.createdAt, Some(at));
      ActivationKeepsUnexpired(ring, next, at, prior);
    }
    if k in ring.keys && k.kid != ring.activeKid && Recent(k, at) {
      OthersUnchanged(ring, at, k);
      ActivationKeepsUnexpired(ring, next, at, k);
    }
  }

  /** The served document names exactly the kids of the keys not retired for 91 days. */
  lemma PublishedIsExact(ring: Ring, now: int, kid: Kid)
    requires WellFormed(ring)
    ensures kid in PublishedKids(ring, now) <==> exists k :: k in ring.keys && k.kid == kid && Recent(k, now)
  {
    forall k | k in ring.keys ensures IsPublished(ring, now, k) <==> Recent(k, now) {
      if k.kid == ring.activeKid || Some(k.kid) == ring.pendingKid {
        UsableIsNotRetired(ring, k.kid, k);
      }
    }
    assert forall k :: k in PublishedKeys(ring, now) <==> k in ring.keys && Recent(k, now);
  }

  // ---- Progress ------------------------------------------------------------------

  /** Two rotations at least 120 s apart replace the active key by the one the first generated. */
  lemma TwoRotationsReplaceTheKey(ring: Ring, first: Kid, second: Kid, at: int, later: int)
    requires WellFormed(ring) && ring.pendingKid.None? && first !in Kids(ring.keys) && later - at >= 120
    ensures Rotate(Some(ring), first, at).Write?
    ensures var staged := Rotate(Some(ring), first, at).ring;
            && WellFormed(staged) && Rotate(Some(staged), second, later).Write?
            && var after := Rotate(Some(staged), second, later).ring;
               && WellFormed(after) && after.activeKid == first && after.pendingKid.None?
               && exists prior :: prior in after.keys && prior.kid == ring.activeKid
                                && !prior.hasPrivate && prior.retiredAt == Some(later)
  {
    StagingKeepsWellFormed(ring, first, at);
    StagingIsExact(ring, first, at);
    var staged := Rotate(Some(ring), first, at).ring;
    ActivationKeepsWellFormed(staged, second, later);
    ActivationIsExact(staged, second, later);
    var prior :| prior in staged.keys && Usable(prior, staged.activeKid);
    assert Superseded(staged, Key(prior.kid, false, prior.createdAt, Some(later)), later);
  }

  /** The first unretired key with the active kid. */
  function ActiveKey(ring: Ring): (k: Key)
    requires HasUsable(ring.keys, ring.activeKid)
    ensures k in ring.keys && k.kid == ring.activeKid && k.retiredAt.None?
  {
    FindActive(ring.keys, ring.activeKid)
  }

  function FindActive(keys: seq<Key>, kid: Kid): (k: Key)
    requires HasUsable(keys, kid)
    ensures k in keys && k.kid == kid && k.retiredAt.None?
  {
    if keys[0].kid == kid && keys[0].retiredAt.None? then keys[0] else FindActive(keys[1..], kid)
  }

  /** `rotateSigningKeyWhenDue`: whether the scheduler asks for a rotation. */
  function Due(current: Option<Ring>, now: int, intervalSeconds: int): bool
    requires current.Some? ==> HasUsable(current.value.keys, current.value.activeKid)
  {
    match current
    case None => true
    case Some(ring) =>
      if ring.pendingKid.Some? then
        ring.pendingSince.Some? && now - ring.pendingSince.value >= JWKS_PROPAGATION_SECONDS
      else now - ActiveKey(ring).createdAt >= intervalSeconds
  }

  /**
   The scheduler asks for a rotation exactly when there is no ring, a staged key has waited 120 s, or
   nothing is staged and the active key is at least `intervalSeconds` old; and then the rotation writes.
   */
  lemma DueIsExact(current: Option<Ring>, newKid: Kid, now: int, intervalSeconds: int)
    requires current.Some? ==> WellFormed(current.value) && newKid !in Kids(current.value.keys)
    ensures Due(current, now, intervalSeconds) <==>
            || current.None?
            || (current.value.pendingSince.Some? && now - current.value.pendingSince.value >= 120)
            || (current.value.pendingKid.None?
                && exists k :: k in current.value.keys && k.kid == current.value.activeKid
                               && now - k.createdAt >= intervalSeconds)
    ensures Due(current, now, intervalSeconds) ==> Rotate(current, newKid, now).Write?
  {
    if current.Some? {
      var ring := current.value;
      var active := ActiveKey(ring);
      forall k | k in ring.keys && k.kid == ring.activeKid ensures k == active {
        var i :| 0 <= i < |ring.keys| && ring.keys[i] == k;
        var j :| 0 <= j < |ring.keys| && ring.keys[j] == active;
      }
      if Due(current, now, intervalSeconds) && ring.pendingKid.Some? {
        ActivationKeepsWellFormed(ring, newKid, now);
      }
    }
  }

  /** An active key that is old enough is replaced by the next two scheduled runs 120 s or more apart. */
  lemma ScheduleReplacesOldKeys(ring: Ring, first: Kid, second: Kid, at: int, later: int, intervalSeconds: int)
    requires WellFormed(ring) && ring.pendingKid.None? && first !in Kids(ring.keys) && later - at >= 120
    requires at - ActiveKey(ring).createdAt >= intervalSeconds
    ensures Due(Some(ring), at, intervalSeconds) && Rotate(Some(ring), first, at).Write?
    ensures var staged := Rotate(Some(ring), first, at).ring;
            && WellFormed(staged) && Due(Some(staged), later, intervalSeconds)
            && Rotate(Some(staged), second, later).Write?
            && Rotate(Some(staged), second, later).ring.activeKid == first
  {
    TwoRotationsReplaceTheKey(ring, first, second, at, later);
    StagingIsExact(ring, first, at);
  }
}
