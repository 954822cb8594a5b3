/**
 The sanitizer and the validator agree: whatever the sanitizer returns is accepted, what is
 accepted it returns unchanged, and what it changes carries `_truncated: true`; all this for values
 without host objects, and exactly what happens with them.
 */
module AuditTheorems {
  import opened Wrappers
  import opened AuditText
  import opened AuditMetadata
  import opened AuditFolds

  // ---- Good values -------------------------------------------------------------

  /** Plain data within the limits of every level, with distinct keys. */
  predicate Good(v: Value, depth: nat) {
    Bounded(v, depth) && WellFormed(v) && HostFree(v)
  }

  function GoodAt(depth: nat): Value -> bool {
    v => Good(v, depth)
  }

  /** Entries that the traversal copies as they are: allowed keys, distinct, none taken, good values. */
  predicate Copyable(entries: seq<Entry>, taken: set<Text>, depth: nat) {
    Clean(entries, taken, Allowed(), GoodAt(depth))
  }

  lemma GoodArray(items: seq<Value>, depth: nat)
    requires depth < MAX_DEPTH && |items| <= MAX_ARRAY_ITEMS
    ensures Good(Arr(items), depth) <==> Each(items, GoodAt(depth + 1))
  {
    if Each(items, GoodAt(depth + 1)) {
      forall x | x in items ensures Good(x, depth + 1) {
        assert GoodAt(depth + 1)(x);
      }
    }
  }

  lemma GoodObject(entries: seq<Entry>, depth: nat)
    requires depth < MAX_DEPTH && |entries| <= MAX_KEYS
    ensures Good(Obj(entries), depth) <==> Copyable(entries, {}, depth + 1)
  {
    if Good(Obj(entries), depth) {
      forall e | e in entries ensures Allowed()(e.key) && GoodAt(depth + 1)(e.value) {
        assert EntryBounded(e, depth + 1) && EntryWellFormed(e) && EntryHostFree(e);
      }
    }
    if Copyable(entries, {}, depth + 1) {
      forall e | e in entries ensures EntryBounded(e, depth + 1) && EntryWellFormed(e) && EntryHostFree(e) {
        assert Allowed()(e.key) && GoodAt(depth + 1)(e.value);
      }
    }
  }

  // ---- Traversal: output is good -----------------------------------------------

  lemma LeafIsGood(v: Value, depth: nat)
    requires !Container(v)
    ensures Good(SanitizeLeaf(v), depth) && Nodes(SanitizeLeaf(v)) == 0
  {
    if v.Str? { TruncatedFits(v.text, STRING_MAX_BYTES); }
    if v.BigInt? { TruncatedFits(v.digits, STRING_MAX_BYTES); }
  }

  lemma ArrayIsSound(items: seq<Value>, depth: nat, s: State)
    requires depth < MAX_DEPTH && s.nodesRemaining > 0
    requires forall x :: x in items ==> Sound(At(depth + 1), x, GoodAt(depth + 1))
    ensures var (u, t) := SanitizeValue(Arr(items), depth, s); Good(u, depth) && Paid(Nodes(u), s, t)
  {
    var s1 := s.(nodesRemaining := s.nodesRemaining - 1).Mark(|items| > MAX_ARRAY_ITEMS);
    ItemsSound(At(depth + 1), GoodAt(depth + 1), items, MAX_ARRAY_ITEMS, s1);
    ItemsAreFold(items, MAX_ARRAY_ITEMS, depth + 1, s1);
    GoodArray(SanitizeItems(items, MAX_ARRAY_ITEMS, depth + 1, s1).0, depth);
  }

  /** A visited object is what the entries' loop makes of it. */
  lemma ObjectFolds(entries: seq<Entry>, depth: nat, s: State) returns (s1: State, r: seq<Entry>, t: State)
    requires depth < MAX_DEPTH && s.nodesRemaining > 0
    ensures s1 == s.(nodesRemaining := s.nodesRemaining - 1).Mark(|entries| > MAX_KEYS)
    ensures FoldEntries(At(depth + 1), Rule(), entries, MAX_KEYS, {}, s1) == (r, t)
    ensures SanitizeValue(Obj(entries), depth, s) == (Obj(r), t)
  {
    s1 := s.(nodesRemaining := s.nodesRemaining - 1).Mark(|entries| > MAX_KEYS);
    EntriesAreFold(entries, MAX_KEYS, {}, depth + 1, s1);
    var result := SanitizeEntries(entries, MAX_KEYS, {}, depth + 1, s1);
    r, t := result.0, result.1;
  }

  lemma ObjectIsSound(entries: seq<Entry>, depth: nat, s: State)
    requires depth < MAX_DEPTH && s.nodesRemaining > 0
    requires forall e :: e in entries ==> Sound(At(depth + 1), e.value, GoodAt(depth + 1))
    ensures var (u, t) := SanitizeValue(Obj(entries), depth, s); Good(u, depth) && Paid(Nodes(u), s, t)
  {
    var s1, r, t := ObjectFolds(entries, depth, s);
    RuleAdmits();
    EntriesComeOutClean(At(depth + 1), Rule(), Allowed(), GoodAt(depth + 1), entries, MAX_KEYS, s1, r, t);
    GoodObject(r, depth);
  }

  /** Values without items or entries, and those that are cut off. */
  lemma RestIsSound(v: Value, depth: nat, s: State)
    requires s.nodesRemaining >= 0
    requires (!v.Arr? && !v.Obj?) || depth >= MAX_DEPTH || s.nodesRemaining == 0
    ensures var (u, t) := SanitizeValue(v, depth, s); Good(u, depth) && Paid(Nodes(u), s, t)
  {
    if !Container(v) {
      LeafIsGood(v, depth);
    }
  }

  lemma {:induction false} VisitIsSound(v: Value, depth: nat)
    ensures Sound(At(depth), v, GoodAt(depth))
    decreases v
  {
    if v.Arr? {
      forall x | x in v.items ensures Sound(At(depth + 1), x, GoodAt(depth + 1)) {
        VisitIsSound(x, depth + 1);
      }
    } else if v.Obj? {
      forall e | e in v.entries ensures Sound(At(depth + 1), e.value, GoodAt(depth + 1)) {
        VisitIsSound(e.value, depth + 1);
      }
    }
    forall s: State | s.nodesRemaining >= 0
      ensures GoodAt(depth)(At(depth)(v, s).0) && Paid(Nodes(At(depth)(v, s).0), s, At(depth)(v, s).1)
    {
      if (!v.Arr? && !v.Obj?) || depth >= MAX_DEPTH || s.nodesRemaining == 0 {
        RestIsSound(v, depth, s);
      } else if v.Arr? {
        ArrayIsSound(v.items, depth, s);
      } else {
        ObjectIsSound(v.entries, depth, s);
      }
    }
  }

  /** Sanitized values obey every limit, and each of their nodes was paid for from the budget. */
  lemma SanitizedIsBounded(v: Value, depth: nat, s: State)
    requires s.nodesRemaining >= 0
    ensures var (u, t) := SanitizeValue(v, depth, s); Good(u, depth) && Paid(Nodes(u), s, t)
  {
    VisitIsSound(v, depth);
    assert Sound(At(depth), v, GoodAt(depth)) && At(depth)(v, s) == SanitizeValue(v, depth, s);
  }

  // ---- Traversal: no mark, no change -----------------------------------------

  predicate Faithful(v: Value, r: (Value, State), s: State) {
    (s.truncated ==> r.1.truncated) && (!r.1.truncated ==> r.0 == v)
  }

  lemma ArrayIsHonest(items: seq<Value>, depth: nat, s: State)
    requires forall x :: x in items ==> Honest(At(depth + 1), x)
    ensures Faithful(Arr(items), SanitizeValue(Arr(items), depth, s), s)
  {
    if depth < MAX_DEPTH && s.nodesRemaining > 0 {
      var s1 := s.(nodesRemaining := s.nodesRemaining - 1).Mark(|items| > MAX_ARRAY_ITEMS);
      ItemsHonest(At(depth + 1), items, MAX_ARRAY_ITEMS, s1);
      ItemsAreFold(items, MAX_ARRAY_ITEMS, depth + 1, s1);
    }
  }

  lemma ObjectIsHonest(entries: seq<Entry>, depth: nat, s: State)
    requires forall e :: e in entries ==> Honest(At(depth + 1), e.value)
    ensures Faithful(Obj(entries), SanitizeValue(Obj(entries), depth, s), s)
  {
    if depth < MAX_DEPTH && s.nodesRemaining > 0 {
      var s1, r, t := ObjectFolds(entries, depth, s);
      EntriesHonest(At(depth + 1), Rule(), entries, MAX_KEYS, {}, s1);
    }
  }

  lemma RestIsHonest(v: Value, depth: nat, s: State)
    requires HostFree(v) && !v.Arr? && !v.Obj?
    ensures Faithful(v, SanitizeValue(v, depth, s), s)
  {
  }

  lemma {:induction false} VisitIsHonest(v: Value, depth: nat)
    requires HostFree(v)
    ensures Honest(At(depth), v)
    decreases v
  {
    if v.Arr? {
      forall x | x in v.items ensures Honest(At(depth + 1), x) {
        VisitIsHonest(x, depth + 1);
      }
    } else if v.Obj? {
      forall e | e in v.entries ensures Honest(At(depth + 1), e.value) {
        assert EntryHostFree(e);
        VisitIsHonest(e.value, depth + 1);
      }
    }
    forall s: State
      ensures (s.truncated ==> At(depth)(v, s).1.truncated) && (!At(depth)(v, s).1.truncated ==> At(depth)(v, s).0 == v)
    {
      if v.Arr? {
        ArrayIsHonest(v.items, depth, s);
      } else if v.Obj? {
        ObjectIsHonest(v.entries, depth, s);
      } else {
        RestIsHonest(v, depth, s);
      }
    }
  }

  lemma UnmarkedIsUnchanged(v: Value, depth: nat, s: State)
    requires HostFree(v) && !SanitizeValue(v, depth, s).1.truncated
    ensures SanitizeValue(v, depth, s).0 == v && !s.truncated
  {
    VisitIsHonest(v, depth);
    assert Honest(At(depth), v) && At(depth)(v, s) == SanitizeValue(v, depth, s);
  }

  // ---- Traversal: good input passes through ------------------------------------

  lemma ArrayIsCopied(visit: Visit, items: seq<Value>, depth: nat, s: State)
    requires depth < MAX_DEPTH && |items| <= MAX_ARRAY_ITEMS && Nodes(Arr(items)) <= s.nodesRemaining
    requires forall x :: x in items ==> Copies(visit, x)
    requires SanitizeItems(items, MAX_ARRAY_ITEMS, depth + 1, Spend(s, 1))
          == FoldItems(visit, items, MAX_ARRAY_ITEMS, Spend(s, 1))
    ensures SanitizeValue(Arr(items), depth, s) == (Arr(items), Spend(s, Nodes(Arr(items))))
  {
    assert Spend(s, 1).Mark(false) == Spend(s, 1);
    ItemsCopied(visit, items, MAX_ARRAY_ITEMS, Spend(s, 1));
  }

  lemma ObjectIsCopied(entries: seq<Entry>, depth: nat, s: State)
    requires depth < MAX_DEPTH && |entries| <= MAX_KEYS && s.nodesRemaining > 0
    requires SanitizeEntries(entries, MAX_KEYS, {}, depth + 1, Spend(s, 1))
          == (entries, Spend(Spend(s, 1), EntryNodes(entries)))
    ensures SanitizeValue(Obj(entries), depth, s) == (Obj(entries), Spend(s, Nodes(Obj(entries))))
  {
    assert Spend(s, 1).Mark(false) == Spend(s, 1);
  }

  lemma LeafIsCopied(v: Value, depth: nat, s: State)
    requires Good(v, depth) && !v.Arr? && !v.Obj?
    ensures SanitizeValue(v, depth, s) == (v, Spend(s, Nodes(v)))
  {
    if v.Str? {
      TruncatedFits(v.text, STRING_MAX_BYTES);
    }
  }

  /** The parts of a good value: good items, or good entries under keys that are kept. */
  lemma GoodParts(v: Value, depth: nat)
    requires Good(v, depth)
    ensures v.Arr? ==> forall x :: x in v.items ==> Good(x, depth + 1)
    ensures v.Obj? ==> KeptInTurn(Rule(), v.entries, {}) && forall e :: e in v.entries ==> Good(e.value, depth + 1)
  {
    if v.Obj? {
      GoodObject(v.entries, depth);
      CleanEitherWay(v.entries, {}, Allowed(), GoodAt(depth + 1));
      CleanIsKept(v.entries, {}, GoodAt(depth + 1));
      forall e | e in v.entries ensures Good(e.value, depth + 1) {
        assert GoodAt(depth + 1)(e.value);
      }
    }
  }

  lemma ItemsCopiedAt(items: seq<Value>, depth: nat)
    requires depth < MAX_DEPTH && |items| <= MAX_ARRAY_ITEMS && forall x :: x in items ==> Copies(At(depth + 1), x)
    ensures Copies(At(depth), Arr(items))
  {
    var v := Arr(items);
    forall s: State | Nodes(v) <= s.nodesRemaining ensures At(depth)(v, s) == (v, Spend(s, Nodes(v))) {
      ItemsAreFold(items, MAX_ARRAY_ITEMS, depth + 1, Spend(s, 1));
      ArrayIsCopied(At(depth + 1), items, depth, s);
    }
  }

  lemma EntriesCopiedAt(entries: seq<Entry>, depth: nat)
    requires depth < MAX_DEPTH && |entries| <= MAX_KEYS
    requires KeptInTurn(Rule(), entries, {}) && CopiesEach(At(depth + 1), entries)
    ensures Copies(At(depth), Obj(entries))
  {
    var v := Obj(entries);
    forall s: State | Nodes(v) <= s.nodesRemaining ensures At(depth)(v, s) == (v, Spend(s, Nodes(v))) {
      EntriesAreFold(entries, MAX_KEYS, {}, depth + 1, Spend(s, 1));
      EntriesCopied(At(depth + 1), Rule(), entries, MAX_KEYS, {}, Spend(s, 1));
      ObjectIsCopied(entries, depth, s);
    }
  }

  lemma {:induction false} VisitCopies(v: Value, depth: nat)
    requires Good(v, depth)
    ensures Copies(At(depth), v)
    decreases v
  {
    GoodParts(v, depth);
    if v.Arr? {
      forall x | x in v.items ensures Copies(At(depth + 1), x) {
        VisitCopies(x, depth + 1);
      }
      ItemsCopiedAt(v.items, depth);
    } else if v.Obj? {
      forall e | e in v.entries ensures Copies(At(depth + 1), e.value) {
        VisitCopies(e.value, depth + 1);
      }
      EntriesCopiedAt(v.entries, depth);
    } else {
      forall s: State | Nodes(v) <= s.nodesRemaining ensures At(depth)(v, s) == (v, Spend(s, Nodes(v))) {
        LeafIsCopied(v, depth, s);
      }
    }
  }

  lemma BoundedPassesThrough(v: Value, depth: nat, s: State)
    requires Good(v, depth) && Nodes(v) <= s.nodesRemaining
    ensures SanitizeValue(v, depth, s) == (v, Spend(s, Nodes(v)))
  {
    VisitCopies(v, depth);
    assert Copies(At(depth), v) && At(depth)(v, s) == SanitizeValue(v, depth, s);
  }

  // ---- The byte budget -------------------------------------------------------

  lemma {:induction false} NodesSnoc(entries: seq<Entry>, e: Entry)
    ensures EntryNodes(entries + [e]) == EntryNodes(entries) + Nodes(e.value)
    ensures EntriesLength(entries) <= EntriesLength(entries + [e])
    ensures ObjectLength(entries) <= ObjectLength(entries + [e])
  {
    if entries == [] {
      assert entries + [e] == [e];
    } else {
      NodesSnoc(entries[1..], e);
      assert (entries + [e])[1..] == entries[1..] + [e];
    }
  }

  lemma {:induction false} LongerIsLonger(a: seq<Entry>, b: seq<Entry>)
    ensures ObjectLength(a) <= ObjectLength(a + b)
    ensures EntryNodes(a + b) == EntryNodes(a) + EntryNodes(b)
    decreases |b|
  {
    if b == [] {
      assert a + b == a;
    } else {
      NodesSnoc(a, b[0]);
      LongerIsLonger(a + [b[0]], b[1..]);
      assert a + b == (a + [b[0]]) + b[1..];
    }
  }

  /** The fitting loop keeps a subsequence that fits, and drops nothing when everything fits. */
  lemma {:induction false} FitKeeps(entries: seq<Entry>, bounded: seq<Entry>)
    requires ObjectLength(bounded) <= METADATA_MAX_BYTES && DistinctKeys(bounded + entries)
    ensures var (r, dropped) := Fit(entries, bounded);
            && (forall e :: e in r ==> e in bounded || e in entries)
            && DistinctKeys(r) && |r| <= |bounded| + |entries|
            && EntryNodes(r) <= EntryNodes(bounded) + EntryNodes(entries)
            && ObjectLength(r) <= METADATA_MAX_BYTES
            && (!dropped ==> r == bounded + entries)
            && (ObjectLength(bounded + entries) <= METADATA_MAX_BYTES ==> !dropped)
    decreases |entries|
  {
    if entries == [] {
      assert bounded + entries == bounded;
    } else {
      assert bounded + entries == (bounded + [entries[0]]) + entries[1..];
      if ObjectLength(bounded + [entries[0]]) <= METADATA_MAX_BYTES {
        FitKeeps(entries[1..], bounded + [entries[0]]);
        NodesSnoc(bounded, entries[0]);
      } else {
        LongerIsLonger(bounded + [entries[0]], entries[1..]);
        DropOne(bounded, entries);
        FitKeeps(entries[1..], bounded);
      }
    }
  }

  lemma DropOne(a: seq<Entry>, b: seq<Entry>)
    requires b != [] && DistinctKeys(a + b)
    ensures DistinctKeys(a + b[1..])
  {
    var all, fewer := a + b, a + b[1..];
    forall i, j | 0 <= i < j < |fewer| ensures fewer[i].key != fewer[j].key {
      var x := if i < |a| then i else i + 1;
      var y := if j < |a| then j else j + 1;
      assert fewer[i] == all[x] && fewer[j] == all[y];
    }
  }

  lemma {:induction false} TrimWhileKeeps(test: seq<Entry> -> bool, bounded: seq<Entry>)
    requires !test([])
    ensures TrimWhile(test, bounded) <= bounded && !test(TrimWhile(test, bounded))
    ensures EntryNodes(TrimWhile(test, bounded)) <= EntryNodes(bounded)
  {
    if bounded != [] && test(bounded) {
      var shorter := bounded[..|bounded| - 1];
      TrimWhileKeeps(test, shorter);
      NodesSnoc(shorter, bounded[|bounded| - 1]);
      assert shorter + [bounded[|bounded| - 1]] == bounded;
    }
  }

  lemma FlagAloneFits()
    ensures !NeedsTrim([])
  {
    assert |FLAG| == 10;
    assert WithFlag([]) == [FLAGGED];
    assert EntriesLength([FLAGGED]) == JsonLength(FLAG) + 6;
  }

  /** Trimming terminates with a prefix on which nothing more has to go. */
  lemma TrimKeeps(bounded: seq<Entry>)
    ensures Trim(bounded) <= bounded && !NeedsTrim(Trim(bounded))
    ensures EntryNodes(Trim(bounded)) <= EntryNodes(bounded)
  {
    FlagAloneFits();
    TrimWhileKeeps(TrimTest(), bounded);
    assert !TrimTest()(Trim(bounded));
  }

  lemma {:induction false} AssignKeeps(entries: seq<Entry>, flag: Entry)
    requires DistinctKeys(entries) && Nodes(flag.value) == 0
    ensures var r := WithEntry(entries, flag);
            && flag in r && |r| <= |entries| + 1
            && (forall e :: e in r ==> e in entries || e == flag)
            && DistinctKeys(r) && EntryNodes(r) <= EntryNodes(entries)
  {
    if entries != [] {
      EntriesParts(entries);
      DistinctStep(entries);
      if entries[0].key == flag.key {
        AssignHere(entries, flag);
      } else {
        AssignKeeps(entries[1..], flag);
        AssignLater(entries, flag);
      }
    }
  }

  lemma AssignHere(entries: seq<Entry>, flag: Entry)
    requires entries != [] && DistinctKeys(entries) && entries[0].key == flag.key && Nodes(flag.value) == 0
    ensures DistinctKeys([flag] + entries[1..]) && EntryNodes([flag] + entries[1..]) <= EntryNodes(entries)
  {
    assert ([flag] + entries[1..])[1..] == entries[1..];
  }

  lemma AssignLater(entries: seq<Entry>, flag: Entry)
    requires entries != [] && DistinctKeys(entries) && entries[0].key != flag.key
    requires var rest := WithEntry(entries[1..], flag);
             && (forall e :: e in rest ==> e in entries[1..] || e == flag)
             && DistinctKeys(rest) && EntryNodes(rest) <= EntryNodes(entries[1..])
    ensures var r := [entries[0]] + WithEntry(entries[1..], flag);
            DistinctKeys(r) && EntryNodes(r) <= EntryNodes(entries)
  {
    var r := [entries[0]] + WithEntry(entries[1..], flag);
    assert r[1..] == WithEntry(entries[1..], flag);
    DistinctStep(entries);
    DistinctStep(r);
  }

  lemma FlagKeeps(entries: seq<Entry>)
    requires DistinctKeys(entries)
    ensures var r := WithFlag(entries);
            && FLAGGED in r && |r| <= |entries| + 1
            && (forall e :: e in r ==> e in entries || e == FLAGGED)
            && DistinctKeys(r) && EntryNodes(r) <= EntryNodes(entries)
  {
    AssignKeeps(entries, FLAGGED);
  }

  /** Entries of an object within every limit but the byte limit, with room for the flag's node count. */
  predicate GoodEntries(entries: seq<Entry>) {
    |entries| <= MAX_KEYS && Copyable(entries, {}, 1) && 1 + EntryNodes(entries) <= MAX_NODES
  }

  lemma GoodEntriesAccepted(entries: seq<Entry>)
    requires GoodEntries(entries) && ObjectLength(entries) <= METADATA_MAX_BYTES
    ensures Accepts(Obj(entries)) && Good(Obj(entries), 0)
  {
    GoodObject(entries, 0);
    CheckMeaning(Obj(entries), 0, 0);
  }

  lemma FitGood(entries: seq<Entry>)
    requires GoodEntries(entries)
    ensures var (r, dropped) := Fit(entries, []);
            && GoodEntries(r) && ObjectLength(r) <= METADATA_MAX_BYTES
            && (!dropped ==> r == entries)
            && (ObjectLength(entries) <= METADATA_MAX_BYTES ==> !dropped)
  {
    assert [] + entries == entries;
    FitKeeps(entries, []);
  }

  lemma FlagIsAllowed()
    ensures Allowed()(FLAG) && GoodAt(1)(Bool(true))
  {
    assert |FLAG| == 10;
  }

  lemma FlagGood(entries: seq<Entry>)
    requires GoodEntries(entries)
    ensures var r := WithFlag(Trim(entries));
            GoodEntries(r) && ObjectLength(r) <= METADATA_MAX_BYTES && FLAGGED in r
  {
    TrimKeeps(entries);
    var trimmed := Trim(entries);
    assert forall e :: e in trimmed ==> e in entries;
    FlagKeeps(trimmed);
    FlagIsAllowed();
  }

  /** The second half of the sanitizer, on an object that the traversal produced. */
  lemma BoundIsAccepted(entries: seq<Entry>, truncated: bool)
    requires GoodEntries(entries)
    ensures Bound(entries, truncated).Obj?
    ensures Accepts(Bound(entries, truncated)) && Good(Bound(entries, truncated), 0)
    ensures FLAGGED in Bound(entries, truncated).entries || (!truncated && Bound(entries, truncated) == Obj(entries))
    ensures !truncated && ObjectLength(entries) <= METADATA_MAX_BYTES ==> Bound(entries, truncated) == Obj(entries)
  {
    FitGood(entries);
    var (bounded, dropped) := Fit(entries, []);
    if truncated || dropped {
      FlagGood(bounded);
      GoodEntriesAccepted(WithFlag(Trim(bounded)));
    } else {
      GoodEntriesAccepted(bounded);
    }
  }

  // ---- Main results ----------------------------------------------------------

  /** Values the sanitizer passes on untouched because there is no metadata. */
  predicate Missing(v: Value) {
    v.Null? || v.Undefined?
  }

  const FULL := State(MAX_NODES, false)

  /** Values that the traversal turns into an object. */
  predicate ObjectLike(v: Value) {
    v.Obj? || v.Unlistable? || v.Host?
  }

  lemma RootIsObject(v: Value)
    ensures SanitizeValue(v, 0, FULL).0.Obj? <==> ObjectLike(v)
  {
  }

  lemma GoodObjectEntries(u: Value)
    requires u.Obj? && Good(u, 0) && Nodes(u) <= MAX_NODES
    ensures GoodEntries(u.entries)
  {
    GoodObject(u.entries, 0);
  }

  /** The sanitizer on an object: traversal, then the byte budget. */
  lemma SanitizeIs(v: Value) returns (entries: seq<Entry>, truncated: bool)
    requires ObjectLike(v)
    ensures Sanitize(v) == Bound(entries, truncated) && GoodEntries(entries)
    ensures !truncated && HostFree(v) ==> v == Obj(entries)
  {
    RootIsObject(v);
    SanitizedIsBounded(v, 0, FULL);
    var (u, s) := SanitizeValue(v, 0, FULL);
    GoodObjectEntries(u);
    entries, truncated := u.entries, s.truncated;
    if !truncated && HostFree(v) {
      UnmarkedIsUnchanged(v, 0, FULL);
    }
  }

  lemma SanitizedObject(v: Value)
    requires !Missing(v)
    ensures Sanitize(v).Obj? && Accepts(Sanitize(v)) && Good(Sanitize(v), 0)
    ensures HostFree(v) ==> FLAGGED in Sanitize(v).entries || Sanitize(v) == v
  {
    if ObjectLike(v) {
      var entries, truncated := SanitizeIs(v);
      BoundIsAccepted(entries, truncated);
    } else {
      RootIsObject(v);
      FlagAlone();
    }
  }

  lemma FlagAlone()
    ensures Accepts(Obj([FLAGGED])) && Good(Obj([FLAGGED]), 0)
  {
    FlagGood([]);
    GoodEntriesAccepted([FLAGGED]);
  }

  /** For every value the sanitizer's output is accepted by the validator. */
  lemma OutputAccepted(v: Value)
    requires !Missing(v)
    ensures Accepts(Sanitize(v)) && Good(Sanitize(v), 0)
  {
    SanitizedObject(v);
  }

  lemma AcceptedIsFixpoint(v: Value)
    requires Accepts(v) && HostFree(v) && WellFormed(v)
    ensures Sanitize(v) == v
  {
    CheckMeaning(v, 0, 0);
    BoundedPassesThrough(v, 0, FULL);
    GoodObject(v.entries, 0);
    BoundIsAccepted(v.entries, false);
    assert Sanitize(v) == Bound(v.entries, false);
  }

  /** A value is a fixpoint of the sanitizer exactly when the validator accepts it and it holds no host object. */
  lemma FixpointsAreAccepted(v: Value)
    requires !Missing(v) && WellFormed(v)
    ensures Sanitize(v) == v <==> Accepts(v) && HostFree(v)
  {
    SanitizedObject(v);
    if Accepts(v) && HostFree(v) {
      AcceptedIsFixpoint(v);
    }
  }

  /** The second pass, on the queue path, is the identity. */
  lemma SecondPassIsIdentity(v: Value)
    ensures Sanitize(Sanitize(v)) == Sanitize(v)
  {
    if !Missing(v) {
      OutputAccepted(v);
      FixpointsAreAccepted(Sanitize(v));
    }
  }

  // ---- Host objects --------------------------------------------------------------

  /** The value with every host object replaced by an empty one. */
  function Plain(v: Value): Value
    decreases v, 0
  {
    match v
    case Arr(items) => Arr(PlainItems(items))
    case Obj(entries) => Obj(PlainEntries(entries))
    case Host(_) => Obj([])
    case _ => v
  }

  function PlainItems(items: seq<Value>): (r: seq<Value>)
    ensures |r| == |items|
    decreases items, 0
  {
    if items == [] then [] else [Plain(items[0])] + PlainItems(items[1..])
  }

  function PlainEntries(entries: seq<Entry>): (r: seq<Entry>)
    ensures |r| == |entries| && forall i :: 0 <= i < |r| ==> r[i].key == entries[i].key
    decreases entries, 0
  {
    if entries == [] then [] else [Entry(entries[0].key, Plain(entries[0].value))] + PlainEntries(entries[1..])
  }

  /** The traversal does not tell a host object from an empty one. */
  lemma {:induction false} HostsReadAsEmpty(v: Value, depth: nat, s: State)
    ensures SanitizeValue(Plain(v), depth, s) == SanitizeValue(v, depth, s)
    decreases v, 0
  {
    if Container(v) && depth < MAX_DEPTH && s.nodesRemaining > 0 {
      var s1 := s.(nodesRemaining := s.nodesRemaining - 1);
      if v.Arr? {
        ItemsReadAsEmpty(v.items, MAX_ARRAY_ITEMS, depth + 1, s1.Mark(|v.items| > MAX_ARRAY_ITEMS));
      } else if v.Obj? {
        EntriesReadAsEmpty(v.entries, MAX_KEYS, {}, depth + 1, s1.Mark(|v.entries| > MAX_KEYS));
      } else if v.Host? {
        assert s1.Mark(false) == s1;
        assert SanitizeEntries([], MAX_KEYS, {}, depth + 1, s1) == ([], s1);
      }
    }
  }

  lemma {:induction false} ItemsReadAsEmpty(items: seq<Value>, count: nat, depth: nat, s: State)
    ensures SanitizeItems(PlainItems(items), count, depth, s) == SanitizeItems(items, count, depth, s)
    decreases items, 0
  {
    if items != [] && count != 0 {
      HostsReadAsEmpty(items[0], depth, s);
      ItemsReadAsEmpty(items[1..], count - 1, depth, SanitizeValue(items[0], depth, s).1);
      assert PlainItems(items)[0] == Plain(items[0]) && PlainItems(items)[1..] == PlainItems(items[1..]);
    }
  }

  lemma {:induction false} EntriesReadAsEmpty(entries: seq<Entry>, count: nat, taken: set<Text>, depth: nat, s: State)
    ensures SanitizeEntries(PlainEntries(entries), count, taken, depth, s)
         == SanitizeEntries(entries, count, taken, depth, s)
    decreases entries, 0
  {
    if entries != [] && count != 0 {
      var key := Truncated(entries[0].key, KEY_MAX_BYTES);
      var plain := PlainEntries(entries);
      assert plain[0] == Entry(entries[0].key, Plain(entries[0].value)) && plain[1..] == PlainEntries(entries[1..]);
      if key == [] || Forbidden(key) || key in taken {
        EntriesReadAsEmpty(entries[1..], count - 1, taken, depth, s.Mark(true));
      } else {
        var marked := s.Mark(key != entries[0].key);
        HostsReadAsEmpty(entries[0].value, depth, marked);
        EntriesReadAsEmpty(entries[1..], count - 1, taken + {key}, depth, SanitizeValue(entries[0].value, depth, marked).1);
      }
    }
  }

  /** Nor does the validator's traversal; only the byte count of the whole sees the difference. */
  lemma {:induction false} HostsCheckAsEmpty(v: Value, depth: nat, nodes: nat)
    ensures Check(Plain(v), depth, nodes) == Check(v, depth, nodes)
    decreases v, 0
  {
    if v.Arr? {
      ItemsCheckAsEmpty(v.items, depth + 1, nodes + 1);
    } else if v.Obj? {
      EntriesCheckAsEmpty(v.entries, depth + 1, nodes + 1);
    } else if v.Host? {
      assert CheckEntries([], depth + 1, nodes + 1) == Some(nodes + 1);
    }
  }

  lemma {:induction false} ItemsCheckAsEmpty(items: seq<Value>, depth: nat, nodes: nat)
    ensures CheckItems(PlainItems(items), depth, nodes) == CheckItems(items, depth, nodes)
    decreases items, 0
  {
    if items != [] {
      assert PlainItems(items)[0] == Plain(items[0]) && PlainItems(items)[1..] == PlainItems(items[1..]);
      HostsCheckAsEmpty(items[0], depth, nodes);
      var first := Check(items[0], depth, nodes);
      if first.Some? {
        ItemsCheckAsEmpty(items[1..], depth, first.value);
      }
    }
  }

  lemma {:induction false} EntriesCheckAsEmpty(entries: seq<Entry>, depth: nat, nodes: nat)
    ensures CheckEntries(PlainEntries(entries), depth, nodes) == CheckEntries(entries, depth, nodes)
    decreases entries, 0
  {
    if entries != [] {
      var plain := PlainEntries(entries);
      assert plain[0] == Entry(entries[0].key, Plain(entries[0].value)) && plain[1..] == PlainEntries(entries[1..]);
      HostsCheckAsEmpty(entries[0].value, depth, nodes);
      var first := Check(entries[0].value, depth, nodes);
      if first.Some? {
        EntriesCheckAsEmpty(entries[1..], depth, first.value);
      }
    }
  }

  lemma {:induction false} PlainIn(items: seq<Value>, x: Value)
    requires x in PlainItems(items)
    ensures exists y :: y in items && x == Plain(y)
  {
    if x == PlainItems(items)[0] {
      assert items[0] in items && x == Plain(items[0]);
    } else {
      assert PlainItems(items)[1..] == PlainItems(items[1..]);
      PlainIn(items[1..], x);
      var y :| y in items[1..] && x == Plain(y);
      assert y in items;
    }
  }

  lemma {:induction false} PlainEntryIn(entries: seq<Entry>, x: Entry)
    requires x in PlainEntries(entries)
    ensures exists y :: y in entries && x == Entry(y.key, Plain(y.value))
  {
    if x == PlainEntries(entries)[0] {
      assert entries[0] in entries && x == Entry(entries[0].key, Plain(entries[0].value));
    } else {
      assert PlainEntries(entries)[1..] == PlainEntries(entries[1..]);
      PlainEntryIn(entries[1..], x);
      var y :| y in entries[1..] && x == Entry(y.key, Plain(y.value));
      assert y in entries;
    }
  }

  lemma {:induction false} PlainIsHostFree(v: Value)
    ensures HostFree(Plain(v))
    decreases v
  {
    if v.Arr? {
      forall x | x in PlainItems(v.items) ensures HostFree(x) {
        PlainIn(v.items, x);
        var y :| y in v.items && x == Plain(y);
        PlainIsHostFree(y);
      }
    } else if v.Obj? {
      forall x | x in PlainEntries(v.entries) ensures EntryHostFree(x) {
        PlainEntryIn(v.entries, x);
        var y :| y in v.entries && x == Entry(y.key, Plain(y.value));
        PlainIsHostFree(y.value);
      }
    }
  }

  lemma {:induction false} PlainIsWellFormed(v: Value)
    requires WellFormed(v)
    ensures WellFormed(Plain(v))
    decreases v
  {
    if v.Arr? {
      forall x | x in PlainItems(v.items) ensures WellFormed(x) {
        PlainIn(v.items, x);
        var y :| y in v.items && x == Plain(y);
        PlainIsWellFormed(y);
      }
    } else if v.Obj? {
      forall x | x in PlainEntries(v.entries) ensures EntryWellFormed(x) {
        PlainEntryIn(v.entries, x);
        var y :| y in v.entries && x == Entry(y.key, Plain(y.value));
        assert EntryWellFormed(y);
        PlainIsWellFormed(y.value);
      }
    }
  }

  lemma SanitizeIgnoresHosts(v: Value)
    ensures Sanitize(Plain(v)) == Sanitize(v)
  {
    HostsReadAsEmpty(v, 0, FULL);
  }

  /** The flag is in the plain form exactly when it is in the value itself. */
  lemma {:induction false} FlagInPlain(entries: seq<Entry>)
    ensures FLAGGED in PlainEntries(entries) <==> FLAGGED in entries
  {
    if entries != [] {
      FlagInPlain(entries[1..]);
      assert PlainEntries(entries)[1..] == PlainEntries(entries[1..]);
      EntriesParts(entries);
      EntriesParts(PlainEntries(entries));
    }
  }

  /**
   The output equals the input or carries `_truncated: true`, if and only if the value holds no host
   object, or is refused anyway once host objects are read as empty, or carries the mark itself. In
   particular it does for every value without host objects.
   */
  lemma ChangeIsMarked(v: Value)
    requires !Missing(v) && WellFormed(v)
    ensures Sanitize(v).Obj?
    ensures Sanitize(v) == v || FLAGGED in Sanitize(v).entries <==>
              HostFree(v) || !Accepts(Plain(v)) || (v.Obj? && FLAGGED in v.entries)
  {
    SanitizedObject(v);
    if !HostFree(v) {
      var p := Plain(v);
      PlainIsHostFree(v);
      PlainIsWellFormed(v);
      SanitizeIgnoresHosts(v);
      SanitizedObject(p);
      FixpointsAreAccepted(p);
      if v.Obj? {
        FlagInPlain(v.entries);
      }
    }
  }

  /** A date in the metadata comes back as an empty object, without a mark. */
  lemma DateIsLostUnmarked(json: nat)
    ensures var v := Obj([Entry(Ascii("at"), Host(json))]);
            Sanitize(v) == Obj([Entry(Ascii("at"), Obj([]))]) && FLAGGED !in Sanitize(v).entries
  {
    var key := Ascii("at");
    var v := Obj([Entry(key, Host(json))]);
    var p := Obj([Entry(key, Obj([]))]);
    assert PlainEntries([Entry(key, Host(json))]) == [Entry(key, Obj([]))] + PlainEntries([]);
    assert Plain(v) == p;
    SanitizeIgnoresHosts(v);
    DateIsAccepted();
    FixpointsAreAccepted(p);
    assert |FLAG| == 10;
  }

  lemma DateIsAccepted()
    ensures var p := Obj([Entry(Ascii("at"), Obj([]))]); Accepts(p) && Good(p, 0)
  {
    var key := Ascii("at");
    var e := Entry(key, Obj([]));
    assert key == [97, 116];
    assert Utf8Length(key) <= 8 && |Ascii("__proto__")| == 9 && |Ascii("prototype")| == 9 && |Ascii("constructor")| == 11;
    assert Allowed()(key) && GoodAt(1)(Obj([]));
    assert [e][1..] == [];
    assert EntryNodes([e]) == 1;
    assert JsonLength(key) <= 14;
    assert SerializedLength(Obj([])) == ObjectLength([]) == 2;
    assert EntriesLength([e]) == JsonLength(key) + 1 + SerializedLength(e.value) + 1 + EntriesLength([]);
    GoodEntriesAccepted([e]);
  }
}
