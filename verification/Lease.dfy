/**
 The D1 lease row shared by the rotation lease and the maintenance lease
 (src/tokens/key-rotation.ts, src/operations/maintenance.ts): one row per job, taken over only
 once it has lapsed, deleted only by the owner it names.
 */
module Lease {
  import opened Wrappers

  type Owner = nat

  datatype LeaseRow = LeaseRow(owner: Owner, until: int)

  predicate Free(row: Option<LeaseRow>, now: int) {
    row.None? || row.value.until <= now
  }

  class LeaseTable {
    var row: Option<LeaseRow>

    constructor ()
      ensures row.None?
    {
      row := None;
    }

    /** INSERT ... ON CONFLICT DO UPDATE ... WHERE lease_until <= now. */
    method Acquire(owner: Owner, now: int, seconds: nat) returns (acquired: bool)
      modifies this
      ensures acquired <==> old(row).None? || old(row).value.until <= now
      ensures row == if acquired then Some(LeaseRow(owner, now + seconds)) else old(row)
    {
      acquired := row.None? || row.value.until <= now;
      if acquired {
        row := Some(LeaseRow(owner, now + seconds));
      }
    }

    /** DELETE ... WHERE owner_token = owner. */
    method Release(owner: Owner)
      modifies this
      ensures row == if old(row).Some? && old(row).value.owner == owner then None else old(row)
    {
      if row.Some? && row.value.owner == owner {
        row := None;
      }
    }
  }

  // ---- Runs of acquisitions and releases -------------------------------------

  /** A lease handed to an owner; `released` once its owner has deleted it. */
  datatype Grant = Grant(until: int, released: bool)

  datatype State = State(clock: int, row: Option<LeaseRow>, grants: map<Owner, Grant>)

  const INIT := State(0, None, map[])

  datatype Event =
    | Tick(seconds: nat)
    | Acquire(owner: Owner, sampled: int, seconds: nat)
    | Release(owner: Owner)

  /** Owner tokens are random, so no token is used twice; the clock is sampled before the statement runs. */
  predicate Enabled(s: State, e: Event) {
    match e
    case Tick(_) => true
    case Acquire(owner, sampled, _) => owner !in s.grants && sampled <= s.clock
    case Release(owner) => owner in s.grants
  }

  function Apply(s: State, e: Event): State
    requires Enabled(s, e)
  {
    match e
    case Tick(seconds) => s.(clock := s.clock + seconds)
    case Acquire(owner, sampled, seconds) =>
      if !Free(s.row, sampled) then s
      else s.(row := Some(LeaseRow(owner, sampled + seconds)),
              grants := s.grants[owner := Grant(sampled + seconds, false)])
    case Release(owner) =>
      s.(row := if s.row.Some? && s.row.value.owner == owner then None else s.row,
         grants := s.grants[owner := s.grants[owner].(released := true)])
  }

  function Run(events: seq<Event>): Option<State> {
    if events == [] then Some(INIT)
    else
      var before := Run(events[..|events| - 1]);
      var e := events[|events| - 1];
      if before.Some? && Enabled(before.value, e) then Some(Apply(before.value, e)) else None
  }

  /** The owner was granted the lease, has not released it, and it has not lapsed. */
  predicate Holds(s: State, owner: Owner) {
    owner in s.grants && !s.grants[owner].released && s.clock < s.grants[owner].until
  }

  ghost predicate Inv(s: State) {
    && (s.row.Some? ==> s.row.value.owner in s.grants
                        && s.grants[s.row.value.owner] == Grant(s.row.value.until, false))
    && (forall o :: Holds(s, o) ==> s.row == Some(LeaseRow(o, s.grants[o].until)))
  }

  lemma {:induction false} RunKeepsInv(events: seq<Event>)
    requires Run(events).Some?
    ensures Inv(Run(events).value)
  {
    if events != [] {
      RunKeepsInv(events[..|events| - 1]);
      var s := Run(events[..|events| - 1]).value;
      var t := Apply(s, events[|events| - 1]);
      assert forall o :: Holds(t, o) && o in s.grants ==> Holds(s, o);
    }
  }

  /** In every run an acquisition at the current clock succeeds exactly when nobody holds the lease. */
  lemma TakenExactlyWhenUnheld(events: seq<Event>, owner: Owner, seconds: nat)
    requires Run(events).Some? && owner !in Run(events).value.grants && seconds > 0
    ensures var s := Run(events).value;
            Holds(Apply(s, Acquire(owner, s.clock, seconds)), owner) <==> forall o :: !Holds(s, o)
  {
    RunKeepsInv(events);
    var s := Run(events).value;
    if s.row.Some? && s.row.value.until > s.clock {
      assert Holds(s, s.row.value.owner);
    }
  }

  /** In every run at most one owner holds the lease, and no one else's release takes it away. */
  lemma MutualExclusion(events: seq<Event>, a: Owner, b: Owner)
    requires Run(events).Some?
    ensures var s := Run(events).value;
            && (Holds(s, a) && Holds(s, b) ==> a == b)
            && (Holds(s, a) && b != a && Enabled(s, Release(b)) ==>
                  var t := Apply(s, Release(b));
                  Holds(t, a) && t.row == s.row)
  {
    RunKeepsInv(events);
  }
}
