/**
 Key rotation as a step system: one versioned row, overlapping rotation attempts, and any number
 of isolates that keep a cached copy of the ring for 30 s.

 Two delays are parameters, because the program does not bound them: the commit lag, from the
 scheduler's second (`rotatedAt`) to the commit, and the read delay, from reading the row to the
 moment the copy is remembered. Rotation attempts are not held to the lease: the theorems hold even
 when leases lapse and writers overlap. The copy in a signature and in a served document is a
 history variable; the program keeps only the kid and the public keys.
 */
module KeyRotation {
  import opened Wrappers
  import opened Keyring
  import opened KeyHistory

  const KEYRING_CACHE_TTL_MS := MS * JWKS_PROPAGATION_SECONDS / 4
  const MAX_AGE_MS := 60 * MS
  const STALE_WHILE_REVALIDATE_MS := 30 * MS

  /** Upper bounds on the commit lag and on the read delay, in milliseconds. */
  datatype Params = Params(lag: nat, delay: nat)

  type Isolate = nat

  datatype Row = Row(ring: Ring, version: nat)
  datatype Copy = Copy(ring: Ring, version: nat, readAt: int)
  datatype Entry = Entry(copy: Copy, expiresAt: int)
  datatype Attempt = Attempt(current: Option<Row>, rotatedAt: int)

  datatype Signature = Signature(origin: Copy, at: int) {
    function Kid(): Kid { origin.ring.activeKid }
  }

  datatype Document = Document(origin: Copy, at: int) {
    function Kids(): set<Kid> { PublishedKids(origin.ring, at / MS) }
  }

  datatype State = State(
    clock: int,
    row: Option<Row>,
    attempts: map<Kid, Attempt>,
    loads: set<Copy>,
    caches: map<Isolate, Entry>,
    kids: set<Kid>,
    history: seq<Version>,
    signed: set<Signature>,
    served: set<Document>)

  const INIT := State(0, None, map[], {}, map[], {}, [], {}, {})

  /** Where a request finds its ring: the isolate's cache, or a load that has just finished. */
  datatype Source = FromCache(isolate: Isolate) | FromRead(copy: Copy)

  datatype Event =
    | Tick(ms: nat)
    | Read
    | Begin(newKid: Kid, rotatedAt: int)
    | Commit(newKid: Kid)
    | Remember(isolate: Isolate, copy: Copy)
    | Forget(isolate: Isolate)
    | Sign(source: Source)
    | Serve(source: Source)

  predicate InUse(p: Params, s: State, source: Source) {
    match source
    case FromCache(i) => i in s.caches && s.clock < s.caches[i].expiresAt
    case FromRead(c) => c in s.loads && s.clock <= c.readAt + p.delay
  }

  function CopyAt(s: State, source: Source): Copy
    requires source.FromCache? ==> source.isolate in s.caches
  {
    match source
    case FromCache(i) => s.caches[i].copy
    case FromRead(c) => c
  }

  function Decision(s: State, newKid: Kid): Rotation
    requires newKid in s.attempts
  {
    var a := s.attempts[newKid];
    Rotate(if a.current.None? then None else Some(a.current.value.ring), newKid, a.rotatedAt)
  }

  /** The conditional write succeeds: the attempt writes, and the row is still the one it read. */
  predicate Wins(s: State, newKid: Kid)
    requires newKid in s.attempts
  {
    var a := s.attempts[newKid];
    && Decision(s, newKid).Write?
    && (if a.current.None? then s.row.None?
        else s.row.Some? && s.row.value.version == a.current.value.version)
  }

  function NextVersion(s: State): nat {
    if s.row.None? then 1 else s.row.value.version + 1
  }

  predicate Enabled(p: Params, s: State, e: Event) {
    match e
    case Tick(_) => true
    case Read => s.row.Some?
    case Begin(newKid, _) => newKid !in s.kids
    case Commit(newKid) =>
      && newKid in s.attempts
      && (Wins(s, newKid) ==> 0 <= s.clock - MS * s.attempts[newKid].rotatedAt <= p.lag)
    case Remember(_, c) => c in s.loads && s.clock <= c.readAt + p.delay
    case Forget(_) => true
    case Sign(source) => InUse(p, s, source)
    case Serve(source) => InUse(p, s, source)
  }

  function ReadRow(s: State): set<Copy> {
    if s.row.None? then s.loads
    else s.loads + {Copy(s.row.value.ring, s.row.value.version, s.clock)}
  }

  function CommitStep(s: State, newKid: Kid): State
    requires newKid in s.attempts
  {
    var rest := s.attempts - {newKid};
    if !Wins(s, newKid) then s.(attempts := rest)
    else
      var ring := Decision(s, newKid).ring;
      s.(attempts := rest,
         row := Some(Row(ring, NextVersion(s))),
         loads := s.loads + {Copy(ring, NextVersion(s), s.clock)},
         history := s.history + [Version(ring, newKid, s.attempts[newKid].rotatedAt, s.clock)])
  }

  function Apply(p: Params, s: State, e: Event): State
    requires Enabled(p, s, e)
  {
    match e
    case Tick(ms) => s.(clock := s.clock + ms)
    case Read => s.(loads := ReadRow(s))
    case Begin(newKid, rotatedAt) =>
      s.(attempts := s.attempts[newKid := Attempt(s.row, rotatedAt)],
         kids := s.kids + {newKid},
         loads := ReadRow(s))
    case Commit(newKid) => CommitStep(s, newKid)
    case Remember(i, c) => s.(caches := s.caches[i := Entry(c, s.clock + KEYRING_CACHE_TTL_MS)])
    case Forget(i) => s.(caches := s.caches - {i})
    case Sign(source) => s.(signed := s.signed + {Signature(CopyAt(s, source), s.clock)})
    case Serve(source) => s.(served := s.served + {Document(CopyAt(s, source), s.clock)})
  }

  /** The state after a run, provided every event was enabled when it happened. */
  function Run(p: Params, events: seq<Event>): Option<State> {
    if events == [] then Some(INIT)
    else
      var before := Run(p, events[..|events| - 1]);
      var e := events[|events| - 1];
      if before.Some? && Enabled(p, before.value, e) then Some(Apply(p, before.value, e)) else None
  }

  // ---- The invariant ---------------------------------------------------------

  ghost predicate GoodCopy(s: State, c: Copy) {
    && 1 <= c.version <= |s.history|
    && ReadAs(s.history, c.version - 1, c.readAt)
    && c.ring == s.history[c.version - 1].ring
    && c.readAt <= s.clock
  }

  function Age(p: Params): nat { p.delay + KEYRING_CACHE_TTL_MS }

  ghost predicate UsedInTime(p: Params, s: State, c: Copy, at: int) {
    GoodCopy(s, c) && c.readAt <= at < c.readAt + Age(p) && at <= s.clock
  }

  ghost predicate RowIsLast(s: State) {
    if s.history == [] then s.row.None?
    else
      var last := s.history[|s.history| - 1];
      s.row == Some(Row(last.ring, |s.history|)) && last.committedAt <= s.clock
  }

  ghost predicate AttemptsSound(s: State) {
    && s.attempts.Keys <= s.kids
    && (s.row.Some? ==> Kids(s.row.value.ring.keys) <= s.kids
                        && s.attempts.Keys !! Kids(s.row.value.ring.keys))
    && (forall kid :: kid in s.attempts && s.attempts[kid].current.Some? ==>
          var row := s.attempts[kid].current.value;
          1 <= row.version <= |s.history| && row.ring == s.history[row.version - 1].ring)
  }

  ghost predicate RowInv(p: Params, s: State) {
    ValidHistory(p.lag, s.history) && RowIsLast(s) && AttemptsSound(s)
  }

  ghost predicate CopyInv(p: Params, s: State) {
    && (forall c :: c in s.loads ==> GoodCopy(s, c))
    && (forall i :: i in s.caches ==>
          GoodCopy(s, s.caches[i].copy) && s.caches[i].expiresAt <= s.caches[i].copy.readAt + Age(p))
    && (forall x :: x in s.signed ==> UsedInTime(p, s, x.origin, x.at))
    && (forall d :: d in s.served ==> UsedInTime(p, s, d.origin, d.at))
  }

  ghost predicate Inv(p: Params, s: State) {
    RowInv(p, s) && CopyInv(p, s)
  }

  /** Copies stay sound when the clock advances or a version is appended at the current clock. */
  lemma LaterCopies(s: State, t: State)
    requires s.clock <= t.clock
    requires |s.history| <= |t.history| && t.history[..|s.history|] == s.history
    requires |t.history| > |s.history| ==> s.clock <= t.history[|s.history|].committedAt
    ensures forall c :: GoodCopy(s, c) ==> GoodCopy(t, c)
  {
  }

  lemma {:induction false} AppendValid(lag: nat, h: seq<Version>, v: Version)
    requires ValidHistory(lag, h) && FollowsFrom(lag, h + [v], |h|)
    ensures ValidHistory(lag, h + [v])
  {
    var g := h + [v];
    forall i | 0 <= i < |g| ensures FollowsFrom(lag, g, i) {
      if i < |h| {
        assert FollowsFrom(lag, h, i);
        assert g[i] == h[i] && (i > 0 ==> g[i - 1] == h[i - 1]);
      }
    }
  }

  lemma RotationKids(current: Option<Ring>, newKid: Kid, at: int)
    requires Rotate(current, newKid, at).Write?
    ensures Kids(Rotate(current, newKid, at).ring.keys)
         <= {newKid} + (if current.None? then {} else Kids(current.value.keys))
  {
  }

  /** A winning write applies one rotation to exactly the version that is in the row. */
  lemma CommitFollows(p: Params, s: State, newKid: Kid)
    requires RowInv(p, s) && Enabled(p, s, Commit(newKid)) && Wins(s, newKid)
    ensures var t := CommitStep(s, newKid);
            ValidHistory(p.lag, t.history) && RowIsLast(t)
  {
    var t := CommitStep(s, newKid);
    var a := s.attempts[newKid];
    assert s.row.Some? ==> a.current.Some? && a.current.value.ring == s.row.value.ring;
    assert FollowsFrom(p.lag, t.history, |s.history|);
    AppendValid(p.lag, s.history, t.history[|s.history|]);
  }

  lemma CommitKeepsAttempts(p: Params, s: State, newKid: Kid)
    requires RowInv(p, s) && Enabled(p, s, Commit(newKid)) && Wins(s, newKid)
    ensures AttemptsSound(CommitStep(s, newKid))
  {
    var a := s.attempts[newKid];
    RotationKids(if a.current.None? then None else Some(a.current.value.ring), newKid, a.rotatedAt);
    assert s.row.Some? ==> a.current.Some? && a.current.value.ring == s.row.value.ring;
  }

  /** Copies that were sound stay sound, and those added by a step are. */
  lemma CopiesFollow(p: Params, s: State, t: State)
    requires CopyInv(p, s) && s.clock <= t.clock
    requires forall c: Copy :: GoodCopy(s, c) ==> GoodCopy(t, c)
    requires forall c: Copy :: c in t.loads && c !in s.loads ==> GoodCopy(t, c)
    requires t.caches == s.caches && t.signed == s.signed && t.served == s.served
    ensures CopyInv(p, t)
  {
  }

  lemma CommitKeepsInv(p: Params, s: State, newKid: Kid)
    requires Inv(p, s) && Enabled(p, s, Commit(newKid))
    ensures Inv(p, CommitStep(s, newKid))
  {
    var t := CommitStep(s, newKid);
    if Wins(s, newKid) {
      CommitFollows(p, s, newKid);
      CommitKeepsAttempts(p, s, newKid);
      LaterCopies(s, t);
      assert GoodCopy(t, Copy(t.row.value.ring, t.row.value.version, t.clock));
    } else {
      LaterCopies(s, t);
    }
    CopiesFollow(p, s, t);
  }

  /** Time passing, reads and new attempts. */
  lemma ReadKeepsInv(p: Params, s: State, e: Event)
    requires Inv(p, s) && Enabled(p, s, e) && (e.Tick? || e.Read? || e.Begin?)
    ensures Inv(p, Apply(p, s, e))
  {
    var t := Apply(p, s, e);
    LaterCopies(s, t);
    assert s.row.Some? ==> GoodCopy(t, Copy(s.row.value.ring, s.row.value.version, s.clock));
    CopiesFollow(p, s, t);
  }

  lemma RowUntouched(p: Params, s: State, t: State)
    requires RowInv(p, s) && t.clock == s.clock && t.history == s.history && t.row == s.row
    requires t.attempts == s.attempts && t.kids == s.kids
    ensures RowInv(p, t)
  {
  }

  lemma SameCopies(s: State, t: State)
    requires t.clock == s.clock && t.history == s.history
    ensures forall c: Copy :: GoodCopy(s, c) <==> GoodCopy(t, c)
  {
  }

  lemma CacheKeepsInv(p: Params, s: State, e: Event)
    requires Inv(p, s) && Enabled(p, s, e) && (e.Remember? || e.Forget?)
    ensures Inv(p, Apply(p, s, e))
  {
    var t := Apply(p, s, e);
    RowUntouched(p, s, t);
    SameCopies(s, t);
    assert forall i :: i in t.caches ==>
      (i in s.caches && t.caches[i] == s.caches[i])
      || (e.Remember? && t.caches[i] == Entry(e.copy, s.clock + KEYRING_CACHE_TTL_MS));
  }

  /** A copy that a request may use is recent enough. */
  lemma UsedIsInTime(p: Params, s: State, source: Source)
    requires CopyInv(p, s) && InUse(p, s, source)
    ensures UsedInTime(p, s, CopyAt(s, source), s.clock)
  {
  }

  lemma UsesFollow(p: Params, s: State, t: State, c: Copy)
    requires CopyInv(p, s) && UsedInTime(p, s, c, s.clock)
    requires t.clock == s.clock && t.history == s.history && t.loads == s.loads && t.caches == s.caches
    requires forall x: Signature :: x in t.signed ==> x in s.signed || x == Signature(c, s.clock)
    requires forall d: Document :: d in t.served ==> d in s.served || d == Document(c, s.clock)
    ensures CopyInv(p, t)
  {
    SameCopies(s, t);
  }

  lemma UseKeepsInv(p: Params, s: State, e: Event)
    requires Inv(p, s) && Enabled(p, s, e) && (e.Sign? || e.Serve?)
    ensures Inv(p, Apply(p, s, e))
  {
    UsedIsInTime(p, s, e.source);
    RowUntouched(p, s, Apply(p, s, e));
    UsesFollow(p, s, Apply(p, s, e), CopyAt(s, e.source));
  }

  lemma StepKeepsInv(p: Params, s: State, e: Event)
    requires Inv(p, s) && Enabled(p, s, e)
    ensures Inv(p, Apply(p, s, e))
  {
    match e {
      case Tick(_) => ReadKeepsInv(p, s, e);
      case Read => ReadKeepsInv(p, s, e);
      case Begin(_, _) => ReadKeepsInv(p, s, e);
      case Commit(newKid) => CommitKeepsInv(p, s, newKid);
      case Remember(_, _) => CacheKeepsInv(p, s, e);
      case Forget(_) => CacheKeepsInv(p, s, e);
      case Sign(_) => UseKeepsInv(p, s, e);
      case Serve(_) => UseKeepsInv(p, s, e);
    }
  }
}
