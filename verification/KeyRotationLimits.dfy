/**
 The timing assumptions of the key-rotation theorems are exact. Beyond them there is a run in
 which a copy read just before a key is staged is still in use when that key signs.
 */
module KeyRotationLimits {
  import opened Arithmetic
  import opened Wrappers
  import opened Keyring
  import opened KeyHistory
  import opened KeyRotation
  import opened KeyRotationTheorems

  const PROPAGATION_MS := MS * JWKS_PROPAGATION_SECONDS

  /** The ring of a first boot at second 0, with kid 0. */
  const FIRST_RING := Ring(0, None, None, [Key(0, true, 0, None)])

  lemma Extend(p: Params, events: seq<Event>, s: State, e: Event)
    requires Run(p, events) == Some(s) && Enabled(p, s, e)
    ensures Run(p, events + [e]) == Some(Apply(p, s, e))
  {
  }

  lemma FirstBoot(p: Params) returns (events: seq<Event>, s: State)
    ensures Run(p, events) == Some(s)
    ensures s.clock == 0 && s.kids == {0} && s.served == {} && s.signed == {} && s.row == Some(Row(FIRST_RING, 1))
  {
    var s1 := Apply(p, INIT, Begin(0, 0));
    Extend(p, [], INIT, Begin(0, 0));
    Extend(p, [Begin(0, 0)], s1, Commit(0));
    events, s := [Begin(0, 0)] + [Commit(0)], Apply(p, s1, Commit(0));
    assert [] + [Begin(0, 0)] == [Begin(0, 0)];
  }

  /** First boot; a staging begins; the ring is read; the staging commits `lag` late. */
  lemma ReadThenStage(p: Params, lag: nat) returns (events: seq<Event>, s: State)
    requires lag <= p.lag
    ensures Run(p, events) == Some(s)
    ensures s.clock == lag && s.kids == {0, 1} && s.served == {} && s.signed == {}
    ensures Copy(FIRST_RING, 1, lag) in s.loads
    ensures s.row.Some? && s.row.value.version == 2
    ensures s.row.value.ring.pendingKid == Some(1) && s.row.value.ring.pendingSince == Some(0)
    ensures HasUsable(s.row.value.ring.keys, 1)
  {
    events, s := FirstBoot(p);
    Extend(p, events, s, Begin(1, 0));
    s, events := Apply(p, s, Begin(1, 0)), events + [Begin(1, 0)];
    Extend(p, events, s, Tick(lag));
    s, events := Apply(p, s, Tick(lag)), events + [Tick(lag)];
    Extend(p, events, s, Read);
    s, events := Apply(p, s, Read), events + [Read];
    Extend(p, events, s, Commit(1));
    s, events := Apply(p, s, Commit(1)), events + [Commit(1)];
    var keys := s.row.value.ring.keys;
    assert keys == StagedKeys(FIRST_RING.keys, 1, 0);
    assert keys[0] in keys && Usable(keys[0], 1);
  }

  /** The early copy is remembered, served, and still cached when the staged key is activated and signs. */
  lemma StaleCopyRun(p: Params, lag: nat, remembered: int, served: int) returns (events: seq<Event>, s: State)
    requires lag <= p.lag && lag <= remembered <= lag + p.delay
    requires remembered <= served < remembered + KEYRING_CACHE_TTL_MS && served <= PROPAGATION_MS
    ensures Run(p, events) == Some(s) && s.clock == PROPAGATION_MS
    ensures Document(Copy(FIRST_RING, 1, lag), served) in s.served
    ensures exists x :: x in s.signed && x.Kid() == 1 && x.at == PROPAGATION_MS
    ensures 0 in s.caches && s.caches[0] == Entry(Copy(FIRST_RING, 1, lag), remembered + KEYRING_CACHE_TTL_MS)
  {
    events, s := ServedEarly(p, lag, remembered, served);
    assert Document(Copy(FIRST_RING, 1, lag), served) in s.served;
    Extend(p, events, s, Begin(2, JWKS_PROPAGATION_SECONDS));
    s, events := Apply(p, s, Begin(2, JWKS_PROPAGATION_SECONDS)), events + [Begin(2, JWKS_PROPAGATION_SECONDS)];
    Extend(p, events, s, Commit(2));
    s, events := Apply(p, s, Commit(2)), events + [Commit(2)];
    var last := Copy(s.row.value.ring, 3, PROPAGATION_MS);
    Extend(p, events, s, Sign(FromRead(last)));
    s, events := Apply(p, s, Sign(FromRead(last))), events + [Sign(FromRead(last))];
    assert Signature(last, PROPAGATION_MS) in s.signed;
  }

  lemma ServedEarly(p: Params, lag: nat, remembered: int, served: int) returns (events: seq<Event>, s: State)
    requires lag <= p.lag && lag <= remembered <= lag + p.delay
    requires remembered <= served < remembered + KEYRING_CACHE_TTL_MS && served <= PROPAGATION_MS
    ensures Run(p, events) == Some(s) && s.clock == PROPAGATION_MS && s.kids == {0, 1}
    ensures Document(Copy(FIRST_RING, 1, lag), served) in s.served
    ensures 0 in s.caches && s.caches[0] == Entry(Copy(FIRST_RING, 1, lag), remembered + KEYRING_CACHE_TTL_MS)
    ensures s.row.Some? && s.row.value.version == 2
    ensures s.row.value.ring.pendingKid == Some(1) && s.row.value.ring.pendingSince == Some(0)
    ensures HasUsable(s.row.value.ring.keys, 1)
  {
    events, s := ReadThenStage(p, lag);
    var copy := Copy(FIRST_RING, 1, lag);
    Extend(p, events, s, Tick(remembered - lag));
    s, events := Apply(p, s, Tick(remembered - lag)), events + [Tick(remembered - lag)];
    Extend(p, events, s, Remember(0, copy));
    s, events := Apply(p, s, Remember(0, copy)), events + [Remember(0, copy)];
    Extend(p, events, s, Tick(served - remembered));
    s, events := Apply(p, s, Tick(served - remembered)), events + [Tick(served - remembered)];
    Extend(p, events, s, Serve(FromCache(0)));
    s, events := Apply(p, s, Serve(FromCache(0))), events + [Serve(FromCache(0))];
    Extend(p, events, s, Tick(PROPAGATION_MS - served));
    s, events := Apply(p, s, Tick(PROPAGATION_MS - served)), events + [Tick(PROPAGATION_MS - served)];
  }

  /** With more than 90 s of lag and delay together, an isolate serves a JWKS without a kid in use. */
  lemma InServerCounterexample(p: Params)
    requires p.lag + p.delay > 90 * MS
    ensures !AlwaysInServerSafe(p)
  {
    var lag := Min(p.lag, PROPAGATION_MS);
    var remembered := Min(p.lag + p.delay, PROPAGATION_MS);
    var events, s := StaleCopyRun(p, lag, remembered, remembered);
    Extend(p, events, s, Serve(FromCache(0)));
    var t := Apply(p, s, Serve(FromCache(0)));
    var d := Document(Copy(FIRST_RING, 1, lag), PROPAGATION_MS);
    assert d in t.served && 1 !in d.Kids();
    assert !InServerSafe(t);
    assert Run(p, events + [Serve(FromCache(0))]).Some?;
  }

  /** With 2 ms of lag and delay together, a relying party can meet a kid its document lacks. */
  lemma ExternalCounterexample(p: Params)
    requires p.lag + p.delay > 1
    ensures !AlwaysExternallySafe(p)
  {
    var lag := Min(p.lag, 2);
    var served := 2 + KEYRING_CACHE_TTL_MS - 1;
    var events, s := StaleCopyRun(p, lag, 2, served);
    var d := Document(Copy(FIRST_RING, 1, lag), served);
    assert 1 !in d.Kids() && UsableAt(d, PROPAGATION_MS);
    assert !ExternallySafe(s);
    assert Run(p, events).Some?;
  }

  /**
   Every token an isolate signs verifies at every isolate, for its whole lifetime and in every run,
   exactly when commit lag and read delay together stay within 90 s.
   */
  lemma InServerExact(p: Params)
    ensures AlwaysInServerSafe(p) <==> p.lag + p.delay <= 90 * MS
  {
    if p.lag + p.delay <= 90 * MS {
      forall events | Run(p, events).Some? ensures InServerSafe(Run(p, events).value) {
        InServerTheorem(p, events);
      }
    } else {
      InServerCounterexample(p);
    }
  }

  /**
   For relying parties that hold the JWKS as long as its cache header allows there is no slack:
   the guarantee holds in every run exactly when lag and delay together are at most 1 ms.
   */
  lemma ExternalExact(p: Params)
    ensures AlwaysExternallySafe(p) <==> p.lag + p.delay <= 1
  {
    if p.lag + p.delay <= 1 {
      forall events | Run(p, events).Some? ensures ExternallySafe(Run(p, events).value) {
        ExternalTheorem(p, events);
      }
    } else {
      ExternalCounterexample(p);
    }
  }
}
