/**
 The single-use authorization code (src/do/AuthorizationCodeDO.ts on src/do/base.ts). Each code has
 its own Durable Object; the PKCE challenge of a verifier is an injective function of it, and an
 ill-formed verifier has none.
 */
module AuthorizationCode {
  import opened Wrappers

  const ALARM_SLACK_MS := 60_000

  datatype Payload = Payload(
    issuer: string, clientId: string, redirectUri: string, metadataFingerprint: Option<string>,
    resource: string, resourceRequired: bool, codeChallenge: string)

  datatype Input = Input(
    issuer: string, clientId: string, redirectUri: string, resource: Option<string>,
    metadataFingerprint: Option<string>, computedChallenge: Option<string>)

  /** The stored keys and the time the alarm is set for. */
  datatype Stored = Stored(
    consumed: Option<bool>, expiresAt: Option<int>, value: Option<Payload>, alarmAt: Option<int>)

  const NOTHING := Stored(None, None, None, None)

  datatype Outcome = Found(value: Payload) | NotFound | Binding | Resource | Pkce

  predicate BindingsMatch(v: Payload, i: Input) {
    v.issuer == i.issuer && v.clientId == i.clientId && v.redirectUri == i.redirectUri
    && v.metadataFingerprint == i.metadataFingerprint
  }

  predicate ResourceMatches(v: Payload, i: Input) {
    (v.resourceRequired ==> i.resource.Some?) && (i.resource.Some? ==> i.resource.value == v.resource)
  }

  predicate ProofMatches(v: Payload, i: Input) {
    i.computedChallenge == Some(v.codeChallenge)
  }

  predicate Readable(s: Stored, now: int) {
    s.consumed == Some(false) && s.expiresAt.Some? && now <= s.expiresAt.value && s.value.Some?
  }

  function Answer(s: Stored, i: Input, now: int): Outcome {
    if !Readable(s, now) then NotFound
    else if !BindingsMatch(s.value.value, i) then Binding
    else if !ResourceMatches(s.value.value, i) then Resource
    else if !ProofMatches(s.value.value, i) then Pkce
    else Found(s.value.value)
  }

  function After(s: Stored, i: Input, now: int): Stored {
    if Answer(s, i, now).Found? then s.(consumed := Some(true)) else s
  }

  function Store(value: Payload, ttlSeconds: nat, now: int): Stored {
    var expiresAt := now + ttlSeconds * 1000;
    Stored(Some(false), Some(expiresAt), Some(value), Some(expiresAt + ALARM_SLACK_MS))
  }

  class CodeObject {
    var consumed: Option<bool>
    var expiresAt: Option<int>
    var value: Option<Payload>
    var alarmAt: Option<int>

    ghost function View(): Stored
      reads this
    {
      Stored(consumed, expiresAt, value, alarmAt)
    }

    constructor ()
      ensures View() == NOTHING
    {
      consumed, expiresAt, value, alarmAt := None, None, None, None;
    }

    method StoreValue(v: Payload, ttlSeconds: nat, now: int)
      modifies this
      ensures View() == Store(v, ttlSeconds, now)
    {
      var expiry := now + ttlSeconds * 1000;
      value, expiresAt, consumed := Some(v), Some(expiry), Some(false);
      alarmAt := Some(expiry + ALARM_SLACK_MS);
    }

    /** Check every binding and consume, in one transaction. */
    method ConsumeIf(i: Input, now: int) returns (r: Outcome)
      modifies this
      ensures r == Answer(old(View()), i, now) && View() == After(old(View()), i, now)
    {
      if consumed != Some(false) || expiresAt.None? || now > expiresAt.value || value.None? {
        return NotFound;
      }
      var v := value.value;
      if v.issuer != i.issuer || v.clientId != i.clientId || v.redirectUri != i.redirectUri
         || v.metadataFingerprint != i.metadataFingerprint {
        return Binding;
      }
      if (v.resourceRequired && i.resource.None?) || (i.resource.Some? && v.resource != i.resource.value) {
        return Resource;
      }
      if i.computedChallenge.None? || i.computedChallenge.value != v.codeChallenge {
        return Pkce;
      }
      consumed := Some(true);
      return Found(v);
    }

    method Alarm()
      modifies this
      ensures View() == NOTHING
    {
      consumed, expiresAt, value, alarmAt := None, None, None, None;
    }
  }

  /** Each refusal of a stored code, exactly when it is given: the first check that fails. */
  lemma RefusalsAreExact(v: Payload, spent: Option<bool>, expiresAt: Option<int>, alarm: Option<int>, i: Input, now: int)
    ensures var a := Answer(Stored(spent, expiresAt, Some(v), alarm), i, now);
            var readable := spent == Some(false) && expiresAt.Some? && now <= expiresAt.value;
            var bound := i.issuer == v.issuer && i.clientId == v.clientId && i.redirectUri == v.redirectUri
                         && i.metadataFingerprint == v.metadataFingerprint;
            var resource := match i.resource case None => !v.resourceRequired case Some(r) => r == v.resource;
            && (a.NotFound? <==> !readable)
            && (a.Binding? <==> readable && !bound)
            && (a.Resource? <==> readable && bound && !resource)
            && (a.Pkce? <==> readable && bound && resource && i.computedChallenge != Some(v.codeChallenge))
            && (a.Found? ==> a == Found(v))
  {
  }

  /** Only success changes the object, and then only its mark. */
  lemma EffectIsExact(s: Stored, i: Input, now: int)
    ensures After(s, i, now) == if Answer(s, i, now).Found? then Stored(Some(true), s.expiresAt, s.value, s.alarmAt) else s
  {
  }

  lemma StoreIsExact(v: Payload, ttlSeconds: nat, now: int)
    ensures Store(v, ttlSeconds, now) ==
            Stored(Some(false), Some(now + 1000 * ttlSeconds), Some(v), Some(now + 1000 * ttlSeconds + 60_000))
  {
  }

  // ---- Runs after one store --------------------------------------------------

  datatype Try = Try(input: Input, now: int)

  datatype Event = Attempt(attempt: Try) | AlarmAt(at: int) {
    function Time(): int {
      match this
      case Attempt(a) => a.now
      case AlarmAt(t) => t
    }
  }

  /** The outcomes of the attempts, in order; an alarm deletes everything and yields none. */
  function Outcomes(s: Stored, events: seq<Event>): seq<Outcome>
    decreases events
  {
    if events == [] then []
    else
      match events[0]
      case Attempt(a) => [Answer(s, a.input, a.now)] + Outcomes(After(s, a.input, a.now), events[1..])
      case AlarmAt(_) => Outcomes(NOTHING, events[1..])
  }

  /** Time never goes back, and the alarm fires no earlier than it was set for. */
  predicate Timely(since: int, alarmAt: int, events: seq<Event>)
    decreases events
  {
    events == []
    || (since <= events[0].Time()
        && (events[0].AlarmAt? ==> events[0].Time() >= alarmAt)
        && Timely(events[0].Time(), alarmAt, events[1..]))
  }

  function Attempts(events: seq<Event>): seq<Try> {
    if events == [] then []
    else
      match events[0]
      case Attempt(a) => [a] + Attempts(events[1..])
      case AlarmAt(_) => Attempts(events[1..])
  }

  function OnlyAttempts(tries: seq<Try>): (events: seq<Event>)
    ensures |events| == |tries|
  {
    seq(|tries|, k requires 0 <= k < |tries| => Attempt(tries[k]))
  }

  /** The attempt is in time, repeats every binding, names the right resource where one is due, and proves the challenge. */
  predicate GoodInTime(v: Payload, expiresAt: int, a: Try) {
    && a.now <= expiresAt
    && a.input.issuer == v.issuer && a.input.clientId == v.clientId && a.input.redirectUri == v.redirectUri
    && a.input.metadataFingerprint == v.metadataFingerprint
    && (match a.input.resource case None => !v.resourceRequired case Some(r) => r == v.resource)
    && a.input.computedChallenge == Some(v.codeChallenge)
  }

  predicate FirstGood(v: Payload, expiresAt: int, tries: seq<Try>, k: nat)
    requires k < |tries|
  {
    GoodInTime(v, expiresAt, tries[k]) && forall j :: 0 <= j < k ==> !GoodInTime(v, expiresAt, tries[j])
  }

  lemma FirstGoodStep(v: Payload, expiresAt: int, a: Try, tries: seq<Try>, k: nat)
    requires k < |tries|
    ensures FirstGood(v, expiresAt, [a] + tries, k + 1)
       <==> !GoodInTime(v, expiresAt, a) && FirstGood(v, expiresAt, tries, k)
  {
    var all := [a] + tries;
    assert all[0] == a && forall j :: 0 <= j < |tries| ==> all[j + 1] == tries[j];
    if FirstGood(v, expiresAt, all, k + 1) {
      forall j | 0 <= j < k ensures !GoodInTime(v, expiresAt, tries[j]) {
        assert !GoodInTime(v, expiresAt, all[j + 1]);
      }
    }
  }

  /** What a stored code can look like at time `since`: intact, or deleted well past its expiry. */
  predicate Plausible(v: Payload, expiresAt: int, spent: bool, s: Stored, since: int) {
    s == Stored(Some(spent), Some(expiresAt), Some(v), Some(expiresAt + ALARM_SLACK_MS))
    || (s == NOTHING && since > expiresAt)
  }

  lemma {:induction false} FirstGoodSucceeds(v: Payload, expiresAt: int, spent: bool, s: Stored, since: int,
                                             events: seq<Event>)
    requires Timely(since, expiresAt + ALARM_SLACK_MS, events) && Plausible(v, expiresAt, spent, s, since)
    ensures |Outcomes(s, events)| == |Attempts(events)|
    ensures forall k :: 0 <= k < |Attempts(events)| ==>
      (Outcomes(s, events)[k] == Found(v) <==> !spent && FirstGood(v, expiresAt, Attempts(events), k))
      && (Outcomes(s, events)[k].Found? ==> Outcomes(s, events)[k] == Found(v))
    decreases events
  {
    if events != [] {
      match events[0] {
        case Attempt(a) =>
          var found := !spent && GoodInTime(v, expiresAt, a);
          var s' := After(s, a.input, a.now);
          FirstGoodSucceeds(v, expiresAt, spent || found, s', a.now, events[1..]);
          forall k | 0 < k < |Attempts(events)|
            ensures Outcomes(s, events)[k] == Found(v) <==> !spent && FirstGood(v, expiresAt, Attempts(events), k)
          {
            assert Outcomes(s, events)[k] == Outcomes(s', events[1..])[k - 1];
            FirstGoodStep(v, expiresAt, a, Attempts(events[1..]), k - 1);
          }
        case AlarmAt(t) =>
          FirstGoodSucceeds(v, expiresAt, spent, NOTHING, t, events[1..]);
      }
    }
  }

  /** Deleting the object, or not, gives every attempt the same outcome, reason included. */
  lemma {:induction false} DeletionChangesNothing(v: Payload, expiresAt: int, spent: bool, s: Stored, t: Stored,
                                                  since: int, events: seq<Event>)
    requires Timely(since, expiresAt + ALARM_SLACK_MS, events)
    requires Plausible(v, expiresAt, spent, s, since) && Plausible(v, expiresAt, spent, t, since)
    ensures Outcomes(s, events) == Outcomes(t, OnlyAttempts(Attempts(events)))
    decreases events
  {
    if events != [] {
      var rest := OnlyAttempts(Attempts(events[1..]));
      match events[0] {
        case Attempt(a) =>
          var found := !spent && GoodInTime(v, expiresAt, a);
          DeletionChangesNothing(v, expiresAt, spent || found, After(s, a.input, a.now), After(t, a.input, a.now),
                                 a.now, events[1..]);
          assert OnlyAttempts(Attempts(events)) == [Attempt(a)] + rest;
          assert OnlyAttempts(Attempts(events))[1..] == rest;
        case AlarmAt(at) =>
          DeletionChangesNothing(v, expiresAt, spent, NOTHING, t, at, events[1..]);
      }
    }
  }

  /**
   After one store, over any run of attempts and of alarms no earlier than the store set: attempt k
   is given the stored payload if and only if it is the first with correct bindings, resource and
   PKCE proof by the expiry, and the alarms change no attempt's outcome.
   */
  lemma CodeIsSingleUse(v: Payload, ttlSeconds: nat, storedAt: int, events: seq<Event>)
    requires Timely(storedAt, Store(v, ttlSeconds, storedAt).alarmAt.value, events)
    ensures var outcomes := Outcomes(Store(v, ttlSeconds, storedAt), events);
            var tries := Attempts(events);
            && outcomes == Outcomes(Store(v, ttlSeconds, storedAt), OnlyAttempts(tries))
            && |outcomes| == |tries|
            && (forall k :: 0 <= k < |tries| ==>
                (outcomes[k] == Found(v) <==> FirstGood(v, storedAt + ttlSeconds * 1000, tries, k))
                && (outcomes[k].Found? ==> outcomes[k] == Found(v)))
  {
    var expiresAt := storedAt + ttlSeconds * 1000;
    var s := Store(v, ttlSeconds, storedAt);
    FirstGoodSucceeds(v, expiresAt, false, s, storedAt, events);
    DeletionChangesNothing(v, expiresAt, false, s, s, storedAt, events);
  }

  /** A refused attempt leaves the object as it was, so a wrong guess never burns the code. */
  lemma {:induction false} WrongAttemptsBurnNothing(s: Stored, tries: seq<Try>, good: Try)
    requires forall a :: a in tries ==> !Answer(s, a.input, a.now).Found?
    ensures |Outcomes(s, OnlyAttempts(tries + [good]))| == |tries| + 1
    ensures Outcomes(s, OnlyAttempts(tries + [good]))[|tries|] == Answer(s, good.input, good.now)
    decreases tries
  {
    var events := OnlyAttempts(tries + [good]);
    if tries == [] {
      assert events[1..] == [];
    } else {
      assert tries[0] in tries;
      WrongAttemptsBurnNothing(s, tries[1..], good);
      assert events[1..] == OnlyAttempts(tries[1..] + [good]);
    }
  }
}
