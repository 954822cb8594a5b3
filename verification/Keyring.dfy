/**
 The signing keyring and its two-phase rotation (src/tokens/key-rotation.ts).

 A ring holds one active key, at most one staged ("pending") key, and retired
 keys that keep only public material. Rotation alternates between staging a
 fresh key and, once it has been public for the propagation time, activating it.
 */
module Keyring {
  import opened Wrappers
  import opened Seqs

  const RETIRED_GRACE_SECONDS := 91 * 24 * 60 * 60
  const JWKS_PROPAGATION_SECONDS := 2 * 60

  /** The thumbprint of a generated key pair. */
  type Kid = nat

  datatype Key = Key(kid: Kid, hasPrivate: bool, createdAt: int, retiredAt: Option<int>)

  datatype Ring = Ring(
    activeKid: Kid,
    pendingKid: Option<Kid>,
    pendingSince: Option<int>,
    keys: seq<Key>)

  /** What one rotation attempt decides to do with the ring it has read. */
  datatype Rotation = Keep | Write(ring: Ring) | PendingUnavailable

  predicate Usable(k: Key, kid: Kid) {
    k.kid == kid && k.retiredAt.None? && k.hasPrivate
  }

  predicate HasUsable(keys: seq<Key>, kid: Kid) {
    exists k :: k in keys && Usable(k, kid)
  }

  predicate Unexpired(k: Key, at: int) {
    k.retiredAt.None? || at - k.retiredAt.value < RETIRED_GRACE_SECONDS
  }

  function Strip(k: Key): Key {
    if k.retiredAt.None? then k else k.(hasPrivate := false)
  }

  function Activate(k: Key, activeKid: Kid, pendingKid: Kid, at: int): Key {
    if k.kid == activeKid then k.(hasPrivate := false, retiredAt := Some(at))
    else if k.kid == pendingKid then k.(retiredAt := None)
    else Strip(k)
  }

  function KeepUnexpired(keys: seq<Key>, at: int): (r: seq<Key>)
    ensures forall k :: k in r <==> k in keys && Unexpired(k, at)
  {
    Filter(k => Unexpired(k, at), keys)
  }

  function StagedKeys(keys: seq<Key>, newKid: Kid, at: int): seq<Key> {
    [Key(newKid, true, at, None)] + KeepUnexpired(Map(Strip, keys), at)
  }

  function ActivateAll(ring: Ring, pendingKid: Kid, at: int): (r: seq<Key>)
    ensures |r| == |ring.keys|
    ensures forall i :: 0 <= i < |r| ==> r[i] == Activate(ring.keys[i], ring.activeKid, pendingKid, at)
  {
    Map(k => Activate(k, ring.activeKid, pendingKid, at), ring.keys)
  }

  function ActivatedKeys(ring: Ring, pendingKid: Kid, at: int): seq<Key> {
    KeepUnexpired(ActivateAll(ring, pendingKid, at), at)
  }

  /** One rotation of the ring that was read; `newKid` is the kid a generated key would get. */
  function Rotate(current: Option<Ring>, newKid: Kid, at: int): Rotation {
    match current
    case None =>
      Write(Ring(newKid, None, None, [Key(newKid, true, at, None)]))
    case Some(ring) =>
      if ring.pendingKid.None? then
        Write(Ring(ring.activeKid, Some(newKid), Some(at), StagedKeys(ring.keys, newKid, at)))
      else if ring.pendingSince.None? || at - ring.pendingSince.value < JWKS_PROPAGATION_SECONDS then
        Keep
      else if !HasUsable(ring.keys, ring.pendingKid.value) then
        PendingUnavailable
      else
        Write(Ring(ring.pendingKid.value, None, None, ActivatedKeys(ring, ring.pendingKid.value, at)))
  }

  predicate IsPublished(ring: Ring, now: int, k: Key) {
    k.kid == ring.activeKid
    || Some(k.kid) == ring.pendingKid
    || (k.retiredAt.Some? && now - k.retiredAt.value < RETIRED_GRACE_SECONDS)
  }

  /** The keys whose public half appears in the JWKS document served at second `now`. */
  function PublishedKeys(ring: Ring, now: int): seq<Key> {
    Filter(k => IsPublished(ring, now, k), ring.keys)
  }

  function Kids(keys: seq<Key>): set<Kid> {
    set k | k in keys :: k.kid
  }

  function PublishedKids(ring: Ring, now: int): set<Kid> {
    Kids(PublishedKeys(ring, now))
  }

  // ---- Well-formedness -------------------------------------------------------

  predicate DistinctKids(keys: seq<Key>) {
    forall i, j :: 0 <= i < j < |keys| ==> keys[i].kid != keys[j].kid
  }

  /** A retired key: superseded, and stripped of private material. */
  predicate Retired(k: Key) {
    k.retiredAt.Some? && !k.hasPrivate
  }

  ghost predicate WellFormed(ring: Ring) {
    && DistinctKids(ring.keys)
    && HasUsable(ring.keys, ring.activeKid)
    && (ring.pendingKid.Some? <==> ring.pendingSince.Some?)
    && (ring.pendingKid.Some? ==>
          ring.pendingKid.value != ring.activeKid && HasUsable(ring.keys, ring.pendingKid.value))
    && (forall k :: k in ring.keys && k.kid != ring.activeKid && Some(k.kid) != ring.pendingKid
          ==> Retired(k))
  }

  lemma {:induction false} FilterKeepsDistinct(p: Key -> bool, keys: seq<Key>)
    requires DistinctKids(keys)
    ensures DistinctKids(Filter(p, keys))
  {
    if keys != [] {
      FilterKeepsDistinct(p, keys[1..]);
      var rest := Filter(p, keys[1..]);
      assert forall x :: x in rest ==> x in keys[1..];
      assert forall x :: x in rest ==> x.kid != keys[0].kid;
    }
  }

  /** A usable key is the only key with its kid, so it is not among the retired ones. */
  lemma UsableIsNotRetired(ring: Ring, kid: Kid, k: Key)
    requires WellFormed(ring) && HasUsable(ring.keys, kid) && k in ring.keys && k.kid == kid
    ensures Usable(k, kid)
  {
  }

  lemma MapIn<U(!new)>(f: Key -> U, keys: seq<Key>, k: Key)
    requires k in keys
    ensures f(k) in Map(f, keys)
  {
  }

  lemma StrippedFrom(keys: seq<Key>, at: int, k: Key) returns (origin: Key)
    requires k in KeepUnexpired(Map(Strip, keys), at)
    ensures origin in keys && k == Strip(origin)
  {
    var stripped := Map(Strip, keys);
    assert k in stripped;
    var i :| 0 <= i < |stripped| && stripped[i] == k;
    origin := keys[i];
  }

  lemma StrippedDistinct(keys: seq<Key>, at: int)
    requires DistinctKids(keys)
    ensures DistinctKids(KeepUnexpired(Map(Strip, keys), at))
  {
    FilterKeepsDistinct(k => Unexpired(k, at), Map(Strip, keys));
  }

  lemma StagedKeysShape(ring: Ring, newKid: Kid, at: int)
    requires WellFormed(ring) && ring.pendingKid.None? && newKid !in Kids(ring.keys)
    ensures var staged := StagedKeys(ring.keys, newKid, at);
            && DistinctKids(staged)
            && (forall k :: k in staged ==>
                  || k == Key(newKid, true, at, None)
                  || (k.kid != newKid && (k.kid != ring.activeKid ==> Retired(k))))
  {
    var kept := KeepUnexpired(Map(Strip, ring.keys), at);
    StrippedDistinct(ring.keys, at);
    forall k | k in kept
      ensures k.kid != newKid && (k.kid != ring.activeKid ==> Retired(k))
    {
      var origin := StrippedFrom(ring.keys, at, k);
      assert origin.kid in Kids(ring.keys);
    }
    DistinctCons(Key(newKid, true, at, None), kept);
  }

  lemma DistinctCons(k: Key, keys: seq<Key>)
    requires DistinctKids(keys) && forall x :: x in keys ==> x.kid != k.kid
    ensures DistinctKids([k] + keys)
  {
  }

  lemma StagingKeepsWellFormed(ring: Ring, newKid: Kid, at: int)
    requires WellFormed(ring) && ring.pendingKid.None? && newKid !in Kids(ring.keys)
    ensures Rotate(Some(ring), newKid, at).Write? && WellFormed(Rotate(Some(ring), newKid, at).ring)
  {
    StagedKeysShape(ring, newKid, at);
    var staged := StagedKeys(ring.keys, newKid, at);
    assert staged[0] in staged && Usable(staged[0], newKid);
    var u :| u in ring.keys && Usable(u, ring.activeKid);
    MapIn(Strip, ring.keys, u);
    assert u in staged && u.kid in Kids(ring.keys);
  }

  lemma ActivatedKeysShape(ring: Ring, at: int)
    requires WellFormed(ring) && ring.pendingKid.Some?
    ensures var keys := ActivatedKeys(ring, ring.pendingKid.value, at);
            && DistinctKids(keys)
            && (forall k :: k in keys && k.kid != ring.pendingKid.value ==> Retired(k))
  {
    var next := ring.pendingKid.value;
    var moved := ActivateAll(ring, next, at);
    assert DistinctKids(moved);
    FilterKeepsDistinct(k => Unexpired(k, at), moved);
    forall k | k in ActivatedKeys(ring, next, at) && k.kid != next
      ensures Retired(k)
    {
      var origin := ActivatedFrom(ring, next, at, k);
    }
  }

  lemma ActivatedFrom(ring: Ring, pendingKid: Kid, at: int, k: Key) returns (origin: Key)
    requires k in ActivatedKeys(ring, pendingKid, at)
    ensures origin in ring.keys && k == Activate(origin, ring.activeKid, pendingKid, at)
  {
    var moved := ActivateAll(ring, pendingKid, at);
    assert k in moved;
    var i :| 0 <= i < |moved| && moved[i] == k;
    origin := ring.keys[i];
  }

  lemma ActivationKeepsUnexpired(ring: Ring, pendingKid: Kid, at: int, k: Key)
    requires k in ring.keys && Unexpired(Activate(k, ring.activeKid, pendingKid, at), at)
    ensures Activate(k, ring.activeKid, pendingKid, at) in ActivatedKeys(ring, pendingKid, at)
  {
  }

  lemma ActivationKeepsWellFormed(ring: Ring, newKid: Kid, at: int)
    requires WellFormed(ring) && ring.pendingKid.Some?
    requires at - ring.pendingSince.value >= JWKS_PROPAGATION_SECONDS
    ensures Rotate(Some(ring), newKid, at).Write? && WellFormed(Rotate(Some(ring), newKid, at).ring)
  {
    var next := ring.pendingKid.value;
    ActivatedKeysShape(ring, at);
    var u :| u in ring.keys && Usable(u, next);
    ActivationKeepsUnexpired(ring, next, at, u);
    assert u in ActivatedKeys(ring, next, at);
  }

  /**
   Rotation is total on well-formed rings: it never loses the staged key
   (`PendingUnavailable`) and every ring it writes is well-formed again.
   */
  lemma RotationKeepsWellFormed(current: Option<Ring>, newKid: Kid, at: int)
    requires current.Some? ==> WellFormed(current.value) && newKid !in Kids(current.value.keys)
    ensures !Rotate(current, newKid, at).PendingUnavailable?
    ensures Rotate(current, newKid, at).Write? ==> WellFormed(Rotate(current, newKid, at).ring)
  {
    match current {
      case None =>
        var k := Key(newKid, true, at, None);
        assert k in [k] && Usable(k, newKid);
      case Some(ring) =>
        if ring.pendingKid.None? {
          StagingKeepsWellFormed(ring, newKid, at);
        } else if at - ring.pendingSince.value >= JWKS_PROPAGATION_SECONDS {
          ActivationKeepsWellFormed(ring, newKid, at);
        }
    }
  }

  /** The written ring still holds every key, with its kid, unless it retired 91 days ago or more. */
  lemma NoEarlyDrop(ring: Ring, newKid: Kid, at: int, k: Key)
    requires WellFormed(ring) && k in ring.keys && Rotate(Some(ring), newKid, at).Write?
    ensures var after := Rotate(Some(ring), newKid, at).ring;
            || k.kid in Kids(after.keys)
            || (k.retiredAt.Some? && at - k.retiredAt.value >= RETIRED_GRACE_SECONDS)
  {
  }
}
