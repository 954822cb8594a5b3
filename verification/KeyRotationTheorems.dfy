/**
 What every run of key rotations, reads, signings and servings keeps: well-formed rings, no lost
 update, and no verifier that meets an unknown kid, given bounds on the commit lag and read delay.
 */
module KeyRotationTheorems {
  import opened Wrappers
  import opened Keyring
  import opened KeyHistory
  import opened KeyRotation

  lemma {:induction false} RunKeepsInv(p: Params, events: seq<Event>)
    requires Run(p, events).Some?
    ensures Inv(p, Run(p, events).value)
  {
    if events != [] {
      RunKeepsInv(p, events[..|events| - 1]);
      StepKeepsInv(p, Run(p, events[..|events| - 1]).value, events[|events| - 1]);
    }
  }

  // ---- Main results ----------------------------------------------------------

  /** Every ring ever written is well-formed and its row version counts the rotations so far. */
  lemma EveryRingWellFormed(p: Params, events: seq<Event>)
    requires Run(p, events).Some?
    ensures var s := Run(p, events).value;
            && (forall i :: 0 <= i < |s.history| ==> WellFormed(s.history[i].ring))
            && (s.row.Some? ==> s.row.value.version == |s.history| && WellFormed(s.row.value.ring))
            && (forall i :: i in s.caches ==> WellFormed(s.caches[i].copy.ring))
  {
    RunKeepsInv(p, events);
    var s := Run(p, events).value;
    forall i | 0 <= i < |s.history| ensures WellFormed(s.history[i].ring) {
      HistoryWellFormed(p.lag, s.history, i);
    }
  }

  /** No lost update: each version is one rotation of the version before it. */
  lemma NoLostUpdate(p: Params, events: seq<Event>, n: nat)
    requires Run(p, events).Some? && n + 1 < |Run(p, events).value.history|
    ensures var h := Run(p, events).value.history;
            Rotate(Some(h[n].ring), h[n + 1].newKid, h[n + 1].rotatedAt) == Write(h[n + 1].ring)
  {
    RunKeepsInv(p, events);
    assert FollowsFrom(p.lag, Run(p, events).value.history, n + 1);
  }

  /** Whatever any isolate signs, every isolate's JWKS names its kid from then on. */
  ghost predicate InServerSafe(s: State) {
    forall x, d :: x in s.signed && d in s.served && x.at <= d.at <= x.at + LIFETIME_MS ==>
      x.Kid() in d.Kids()
  }

  /** A relying party may use a document while it is fresh or stale-while-revalidate. */
  predicate UsableAt(d: Document, at: int) {
    d.at <= at < d.at + MAX_AGE_MS + STALE_WHILE_REVALIDATE_MS
  }

  /** No relying party meets an unknown kid, however old the document it may still use. */
  ghost predicate ExternallySafe(s: State) {
    forall x, d, at ::
      x in s.signed && d in s.served && UsableAt(d, at) && x.at <= at <= x.at + LIFETIME_MS ==>
        x.Kid() in d.Kids()
  }

  ghost predicate AlwaysInServerSafe(p: Params) {
    forall events :: Run(p, events).Some? ==> InServerSafe(Run(p, events).value)
  }

  ghost predicate AlwaysExternallySafe(p: Params) {
    forall events :: Run(p, events).Some? ==> ExternallySafe(Run(p, events).value)
  }

  lemma InServerTheorem(p: Params, events: seq<Event>)
    requires p.lag + p.delay <= 90 * MS && Run(p, events).Some?
    ensures InServerSafe(Run(p, events).value)
  {
    RunKeepsInv(p, events);
    var s := Run(p, events).value;
    forall x, d | x in s.signed && d in s.served && x.at <= d.at <= x.at + LIFETIME_MS
      ensures x.Kid() in d.Kids()
    {
      ServedWhereverUsed(p.lag, s.history, x.origin.version - 1, d.origin.version - 1,
                         x.origin.readAt, d.origin.readAt, Age(p), 0, x.at, d.at, d.at);
    }
  }

  lemma ExternalTheorem(p: Params, events: seq<Event>)
    requires p.lag + p.delay <= 1 && Run(p, events).Some?
    ensures ExternallySafe(Run(p, events).value)
  {
    RunKeepsInv(p, events);
    var s := Run(p, events).value;
    forall x, d, at | x in s.signed && d in s.served && UsableAt(d, at) && x.at <= at <= x.at + LIFETIME_MS
      ensures x.Kid() in d.Kids()
    {
      ServedWhereverUsed(p.lag, s.history, x.origin.version - 1, d.origin.version - 1, x.origin.readAt,
                         d.origin.readAt, Age(p), MAX_AGE_MS + STALE_WHILE_REVALIDATE_MS - 1, x.at, d.at, at);
    }
  }
}
