/**
 The committed versions of the keyring row, and what they mean for a kid:
 when it was staged, activated, retired and dropped.

 Times of commit are milliseconds; `rotatedAt` is the whole second that the
 scheduler handed to the rotation, so a commit lags behind it.
 */
module KeyHistory {
  import opened Wrappers
  import opened Keyring

  /** One committed version: the ring, the kid reserved for a generated key, and both clocks. */
  datatype Version = Version(ring: Ring, newKid: Kid, rotatedAt: int, committedAt: int)

  const MS := 1000

  /** Version 1 is a first boot; version n+1 is one rotation step applied to version n. */
  ghost predicate FollowsFrom(lag: nat, h: seq<Version>, i: nat)
    requires i < |h|
  {
    var before := if i == 0 then None else Some(h[i - 1].ring);
    && Rotate(before, h[i].newKid, h[i].rotatedAt) == Write(h[i].ring)
    && 0 <= h[i].committedAt - MS * h[i].rotatedAt <= lag
    && (i > 0 ==> h[i].newKid !in Kids(h[i - 1].ring.keys) && h[i - 1].committedAt <= h[i].committedAt)
  }

  ghost predicate ValidHistory(lag: nat, h: seq<Version>) {
    forall i :: 0 <= i < |h| ==> FollowsFrom(lag, h, i)
  }

  lemma {:induction false} HistoryWellFormed(lag: nat, h: seq<Version>, i: nat)
    requires ValidHistory(lag, h) && i < |h|
    ensures WellFormed(h[i].ring)
  {
    assert FollowsFrom(lag, h, i);
    if i == 0 {
      RotationKeepsWellFormed(None, h[0].newKid, h[0].rotatedAt);
    } else {
      HistoryWellFormed(lag, h, i - 1);
      RotationKeepsWellFormed(Some(h[i - 1].ring), h[i].newKid, h[i].rotatedAt);
    }
  }

  lemma {:induction false} CommitsInOrder(lag: nat, h: seq<Version>, i: nat, j: nat)
    requires ValidHistory(lag, h) && i <= j < |h|
    ensures h[i].committedAt <= h[j].committedAt
    decreases j
  {
    if i < j {
      CommitsInOrder(lag, h, i, j - 1);
      assert FollowsFrom(lag, h, j);
    }
  }

  /** A ring with a staged key remembers the second of the rotation that staged it. */
  lemma StagedSince(lag: nat, h: seq<Version>, n: nat)
    requires ValidHistory(lag, h) && n < |h| && h[n].ring.pendingKid.Some?
    ensures h[n].ring.pendingSince == Some(h[n].rotatedAt)
  {
    assert FollowsFrom(lag, h, n);
  }

  /** A kid that becomes active was staged in the version before, at least the propagation time earlier. */
  lemma ActivationStep(lag: nat, h: seq<Version>, n: nat)
    requires ValidHistory(lag, h) && 0 < n < |h| && h[n - 1].ring.activeKid != h[n].ring.activeKid
    ensures h[n - 1].ring.pendingKid == Some(h[n].ring.activeKid)
    ensures h[n].rotatedAt - h[n - 1].rotatedAt >= JWKS_PROPAGATION_SECONDS
  {
    assert FollowsFrom(lag, h, n);
    assert h[n - 1].ring.pendingKid.Some?;
    StagedSince(lag, h, n - 1);
  }

  /**
   An active kid became active at some version `a`, and the version just before had it staged,
   rotated at least the propagation time earlier; unless `a` is the first boot.
   */
  lemma {:induction false} ActivatedAt(lag: nat, h: seq<Version>, n: nat) returns (a: nat)
    requires ValidHistory(lag, h) && n < |h|
    ensures a <= n
    ensures forall i :: a <= i <= n ==> h[i].ring.activeKid == h[n].ring.activeKid
    ensures a > 0 ==>
              && h[a - 1].ring.pendingKid == Some(h[n].ring.activeKid)
              && h[a].rotatedAt - h[a - 1].rotatedAt >= JWKS_PROPAGATION_SECONDS
  {
    if n == 0 {
      a := 0;
    } else if h[n - 1].ring.activeKid == h[n].ring.activeKid {
      a := ActivatedAt(lag, h, n - 1);
    } else {
      a := n;
      ActivationStep(lag, h, n);
    }
  }

  ghost predicate RetiredIn(ring: Ring, kid: Kid, retiredAt: int) {
    exists k :: k in ring.keys && k.kid == kid && k.retiredAt == Some(retiredAt)
  }

  /** The kid lost its active role at version `b`, after version `n`. */
  ghost predicate RetiredBy(h: seq<Version>, kid: Kid, n: nat, b: nat)
  {
    n < b < |h| && h[b - 1].ring.activeKid == kid
  }

  /** Some rotation between `b` and `m` ran at least the grace period after the retirement. */
  ghost predicate GraceOver(h: seq<Version>, b: nat, m: nat)
    requires b < |h| && m < |h|
  {
    exists x :: b < x <= m && h[x].rotatedAt - h[b].rotatedAt >= RETIRED_GRACE_SECONDS
  }

  lemma RetirementStep(lag: nat, h: seq<Version>, kid: Kid, m: nat)
    requires ValidHistory(lag, h) && m + 1 < |h| && h[m].ring.activeKid == kid
    ensures h[m + 1].ring.activeKid == kid || RetiredIn(h[m + 1].ring, kid, h[m + 1].rotatedAt)
  {
    HistoryWellFormed(lag, h, m);
    assert FollowsFrom(lag, h, m + 1);
    var ring, at := h[m].ring, h[m + 1].rotatedAt;
    if h[m + 1].ring.activeKid != kid {
      var u :| u in ring.keys && Usable(u, kid);
      ActivationKeepsUnexpired(ring, ring.pendingKid.value, at, u);
      assert Activate(u, kid, ring.pendingKid.value, at) in h[m + 1].ring.keys;
    }
  }

  lemma RetainedStep(lag: nat, h: seq<Version>, kid: Kid, m: nat, q: int)
    requires ValidHistory(lag, h) && m + 1 < |h| && RetiredIn(h[m].ring, kid, q)
    ensures RetiredIn(h[m + 1].ring, kid, q) || h[m + 1].rotatedAt - q >= RETIRED_GRACE_SECONDS
  {
    HistoryWellFormed(lag, h, m);
    assert FollowsFrom(lag, h, m + 1);
    var ring, at := h[m].ring, h[m + 1].rotatedAt;
    var k :| k in ring.keys && k.kid == kid && k.retiredAt == Some(q);
    if at - q < RETIRED_GRACE_SECONDS {
      if ring.pendingKid.None? {
        MapIn(Strip, ring.keys, k);
        assert Strip(k) in h[m + 1].ring.keys;
      } else {
        if kid == ring.activeKid || kid == ring.pendingKid.value {
          UsableIsNotRetired(ring, kid, k);
        }
        ActivationKeepsUnexpired(ring, ring.pendingKid.value, at, k);
        assert Strip(k) in h[m + 1].ring.keys;
      }
    }
  }

  /**
   From version `n`, where it is active, a kid stays active, or is retired with the second of its
   retirement, or was dropped by a rotation at least 91 days later.
   */
  lemma {:induction false} AfterActive(lag: nat, h: seq<Version>, n: nat, m: nat) returns (b: nat)
    requires ValidHistory(lag, h) && n <= m < |h|
    ensures var kid := h[n].ring.activeKid;
            || h[m].ring.activeKid == kid
            || (&& RetiredBy(h, kid, n, b) && b <= m
                && (RetiredIn(h[m].ring, kid, h[b].rotatedAt) || GraceOver(h, b, m)))
    decreases m
  {
    var kid := h[n].ring.activeKid;
    b := 0;
    if n < m {
      b := AfterActive(lag, h, n, m - 1);
      if h[m - 1].ring.activeKid == kid {
        RetirementStep(lag, h, kid, m - 1);
        b := m;
      } else if !GraceOver(h, b, m - 1) {
        RetainedStep(lag, h, kid, m - 1, h[b].rotatedAt);
      }
    }
  }

  // ---- Copies of a version ---------------------------------------------------

  /** A ring read from the row at time `readAt`, which then was version `v` (an index of `h`). */
  ghost predicate ReadAs(h: seq<Version>, v: nat, readAt: int) {
    && v < |h|
    && h[v].committedAt <= readAt
    && (v + 1 < |h| ==> readAt <= h[v + 1].committedAt)
  }

  const DAY_MS := 24 * 60 * 60 * MS
  /** The longest a signature is presented for: ID-token hints live as long as a browser session. */
  const LIFETIME_MS := 90 * DAY_MS

  /** A copy too old to have the staged key is too old to be in use when the key signs. */
  lemma StagedBeforeUse(lag: nat, h: seq<Version>, n: nat, m: nat, readN: int, readM: int,
                        age: nat, hold: nat, served: int, at: int)
    requires ValidHistory(lag, h) && ReadAs(h, n, readN) && ReadAs(h, m, readM)
    requires readN <= at && m < n
    requires served < readM + age && served <= at <= served + hold
    requires lag + age + hold <= MS * JWKS_PROPAGATION_SECONDS
    ensures h[m].ring.activeKid == h[n].ring.activeKid || h[m].ring.pendingKid == Some(h[n].ring.activeKid)
  {
    var a := ActivatedAt(lag, h, n);
    if m + 1 < a {
      assert FollowsFrom(lag, h, a) && FollowsFrom(lag, h, a - 1);
      CommitsInOrder(lag, h, a, n);
      CommitsInOrder(lag, h, m + 1, a - 1);
      assert false;
    }
  }

  /** A copy made after the kid retired still publishes it for the lifetime of what it signed. */
  lemma PublishedWhileRetired(lag: nat, h: seq<Version>, n: nat, m: nat, readN: int, readM: int,
                              age: nat, signed: int, served: int)
    requires ValidHistory(lag, h) && ReadAs(h, n, readN) && ReadAs(h, m, readM)
    requires n <= m && signed < readN + age && readM <= served <= signed + LIFETIME_MS
    requires lag + age <= DAY_MS
    ensures h[n].ring.activeKid in PublishedKids(h[m].ring, served / MS)
  {
    var kid := h[n].ring.activeKid;
    HistoryWellFormed(lag, h, m);
    var b := AfterActive(lag, h, n, m);
    if h[m].ring.activeKid == kid {
      var u :| u in h[m].ring.keys && Usable(u, kid);
      assert u in PublishedKeys(h[m].ring, served / MS);
    } else {
      CommitsInOrder(lag, h, n + 1, b);
      assert FollowsFrom(lag, h, b);
      var q := h[b].rotatedAt;
      assert served < MS * q + MS * RETIRED_GRACE_SECONDS;
      if GraceOver(h, b, m) {
        var x :| b < x <= m && h[x].rotatedAt - q >= RETIRED_GRACE_SECONDS;
        assert FollowsFrom(lag, h, x);
        CommitsInOrder(lag, h, x, m);
        assert false;
      }
      var k :| k in h[m].ring.keys && k.kid == kid && k.retiredAt == Some(q);
      assert k in PublishedKeys(h[m].ring, served / MS);
    }
  }

  /**
   The temporal core. A copy of version `n`, at most `age` old, signs at `signed`. Another copy,
   of any version `m` and at most `age` old, is served at `served` and held for at most `hold`.
   If commit lag, age and hold together fit in the propagation time, then at every instant `at`
   at which both are in use the served document names the signing kid.
   */
  lemma ServedWhereverUsed(lag: nat, h: seq<Version>, n: nat, m: nat, readN: int, readM: int,
                           age: nat, hold: nat, signed: int, served: int, at: int)
    requires ValidHistory(lag, h) && ReadAs(h, n, readN) && ReadAs(h, m, readM)
    requires readN <= signed < readN + age && readM <= served < readM + age
    requires signed <= at <= signed + LIFETIME_MS && served <= at <= served + hold
    requires lag + age + hold <= MS * JWKS_PROPAGATION_SECONDS
    ensures h[n].ring.activeKid in PublishedKids(h[m].ring, served / MS)
  {
    if n <= m {
      PublishedWhileRetired(lag, h, n, m, readN, readM, age, signed, served);
    } else {
      var kid := h[n].ring.activeKid;
      StagedBeforeUse(lag, h, n, m, readN, readM, age, hold, served, at);
      HistoryWellFormed(lag, h, m);
      var u :| u in h[m].ring.keys && Usable(u, kid);
      assert u in PublishedKeys(h[m].ring, served / MS);
    }
  }
}
