/**
 The sanitizer's loops over items and entries, for any way of visiting one value and any rule for
 keys: what each visit guarantees, the whole loop guarantees. The sanitizer's own loops are these
 loops.
 */
module AuditFolds {
  import opened AuditText
  import opened AuditMetadata

  /** The sanitized value and the state after visiting one value. */
  type Visit = (Value, State) -> (Value, State)

  function FoldItems(visit: Visit, items: seq<Value>, count: nat, s: State): (seq<Value>, State) {
    if items == [] || count == 0 then ([], s)
    else
      var (first, s1) := visit(items[0], s);
      var (rest, s2) := FoldItems(visit, items[1..], count - 1, s1);
      ([first] + rest, s2)
  }

  /** How keys are shortened, and which short ones are dropped. */
  datatype KeyRule = KeyRule(cut: Text -> Text, drop: Text -> bool) {
    predicate Drops(key: Text, taken: set<Text>) {
      drop(cut(key)) || cut(key) in taken
    }

    /** The key is kept as it is. */
    predicate Keeps(key: Text, taken: set<Text>) {
      cut(key) == key && !Drops(key, taken)
    }

    /** Every key that is not dropped is allowed. */
    ghost predicate Admits(allowed: Text -> bool) {
      forall key {:trigger cut(key)} :: !drop(cut(key)) ==> allowed(cut(key))
    }
  }

  function FoldEntries(visit: Visit, rule: KeyRule, entries: seq<Entry>, count: nat, taken: set<Text>, s: State)
    : (seq<Entry>, State)
  {
    if entries == [] || count == 0 then ([], s)
    else if rule.Drops(entries[0].key, taken) then
      FoldEntries(visit, rule, entries[1..], count - 1, taken, s.Mark(true))
    else
      var key := rule.cut(entries[0].key);
      var (value, s1) := visit(entries[0].value, s.Mark(key != entries[0].key));
      var (rest, s2) := FoldEntries(visit, rule, entries[1..], count - 1, taken + {key}, s1);
      ([Entry(key, value)] + rest, s2)
  }

  // ---- One step ------------------------------------------------------------------

  lemma ItemsStep(visit: Visit, items: seq<Value>, count: nat, s: State,
                  first: Value, s1: State, rest: seq<Value>, s2: State)
    requires items != [] && count > 0 && visit(items[0], s) == (first, s1)
    requires FoldItems(visit, items[1..], count - 1, s1) == (rest, s2)
    ensures FoldItems(visit, items, count, s) == ([first] + rest, s2)
  {
  }

  lemma EntriesDrop(visit: Visit, rule: KeyRule, entries: seq<Entry>, count: nat, taken: set<Text>, s: State)
    requires entries != [] && count > 0 && rule.Drops(entries[0].key, taken)
    ensures FoldEntries(visit, rule, entries, count, taken, s)
         == FoldEntries(visit, rule, entries[1..], count - 1, taken, s.Mark(true))
  {
  }

  lemma EntriesStep(visit: Visit, rule: KeyRule, entries: seq<Entry>, count: nat, taken: set<Text>, s: State,
                    key: Text, value: Value, s1: State, rest: seq<Entry>, s2: State)
    requires entries != [] && count > 0 && !rule.Drops(entries[0].key, taken) && key == rule.cut(entries[0].key)
    requires visit(entries[0].value, s.Mark(key != entries[0].key)) == (value, s1)
    requires FoldEntries(visit, rule, entries[1..], count - 1, taken + {key}, s1) == (rest, s2)
    ensures FoldEntries(visit, rule, entries, count, taken, s) == ([Entry(key, value)] + rest, s2)
  {
  }

  lemma ItemsParts(items: seq<Value>)
    requires items != []
    ensures [items[0]] + items[1..] == items && items[0] in items && forall x :: x in items[1..] ==> x in items
    ensures ItemNodes(items) == Nodes(items[0]) + ItemNodes(items[1..])
  {
  }

  lemma EntriesParts(entries: seq<Entry>)
    requires entries != []
    ensures [entries[0]] + entries[1..] == entries && entries[0] in entries
    ensures forall e :: e in entries[1..] ==> e in entries
    ensures EntryNodes(entries) == Nodes(entries[0].value) + EntryNodes(entries[1..])
  {
  }

  // ---- Output ------------------------------------------------------------------

  /** The budget spent between two states covers these nodes, and the mark is kept. */
  predicate Paid(nodes: nat, s: State, t: State) {
    t.nodesRemaining >= 0 && nodes + t.nodesRemaining <= s.nodesRemaining && (s.truncated ==> t.truncated)
  }

  /** Visiting yields a value with the property, paid for. */
  ghost predicate Sound(visit: Visit, v: Value, good: Value -> bool) {
    forall s: State {:trigger visit(v, s)} :: s.nodesRemaining >= 0 ==>
      good(visit(v, s).0) && Paid(Nodes(visit(v, s).0), s, visit(v, s).1)
  }

  predicate Each(items: seq<Value>, good: Value -> bool) {
    forall x :: x in items ==> good(x)
  }

  lemma EachCons(first: Value, rest: seq<Value>, good: Value -> bool, s: State, s1: State, s2: State)
    requires good(first) && Each(rest, good) && Paid(Nodes(first), s, s1) && Paid(ItemNodes(rest), s1, s2)
    ensures Each([first] + rest, good) && Paid(ItemNodes([first] + rest), s, s2)
  {
    assert ([first] + rest)[1..] == rest;
  }

  lemma {:induction false} ItemsSound(visit: Visit, good: Value -> bool, items: seq<Value>, count: nat, s: State)
    requires s.nodesRemaining >= 0 && forall x :: x in items ==> Sound(visit, x, good)
    ensures var (u, t) := FoldItems(visit, items, count, s);
            |u| <= count && Each(u, good) && Paid(ItemNodes(u), s, t)
  {
    if items != [] && count != 0 {
      ItemsParts(items);
      var (first, s1) := visit(items[0], s);
      assert Sound(visit, items[0], good);
      ItemsSound(visit, good, items[1..], count - 1, s1);
      var (rest, s2) := FoldItems(visit, items[1..], count - 1, s1);
      ItemsStep(visit, items, count, s, first, s1, rest, s2);
      EachCons(first, rest, good, s, s1, s2);
    }
  }

  /** Entries with allowed, distinct keys, none of them taken, and values with the property. */
  predicate Clean(entries: seq<Entry>, taken: set<Text>, allowed: Text -> bool, good: Value -> bool) {
    && DistinctKeys(entries)
    && forall e :: e in entries ==> allowed(e.key) && e.key !in taken && good(e.value)
  }

  /** The same, one entry after the other. */
  predicate CleanInTurn(entries: seq<Entry>, taken: set<Text>, allowed: Text -> bool, good: Value -> bool) {
    entries == []
    || (&& allowed(entries[0].key) && entries[0].key !in taken && good(entries[0].value)
        && CleanInTurn(entries[1..], taken + {entries[0].key}, allowed, good))
  }

  lemma DistinctStep(entries: seq<Entry>)
    requires entries != []
    ensures DistinctKeys(entries) <==>
            DistinctKeys(entries[1..]) && forall e :: e in entries[1..] ==> e.key != entries[0].key
  {
    if DistinctKeys(entries[1..]) && forall e :: e in entries[1..] ==> e.key != entries[0].key {
      forall i, j | 0 <= i < j < |entries| ensures entries[i].key != entries[j].key {
        assert entries[j] == entries[1..][j - 1];
      }
    }
  }

  lemma CleanStep(entries: seq<Entry>, taken: set<Text>, allowed: Text -> bool, good: Value -> bool)
    requires entries != []
    ensures Clean(entries, taken, allowed, good) <==>
            && allowed(entries[0].key) && entries[0].key !in taken && good(entries[0].value)
            && Clean(entries[1..], taken + {entries[0].key}, allowed, good)
  {
    EntriesParts(entries);
    DistinctStep(entries);
  }

  lemma {:induction false} CleanEitherWay(entries: seq<Entry>, taken: set<Text>, allowed: Text -> bool, good: Value -> bool)
    ensures Clean(entries, taken, allowed, good) <==> CleanInTurn(entries, taken, allowed, good)
  {
    if entries != [] {
      CleanStep(entries, taken, allowed, good);
      CleanEitherWay(entries[1..], taken + {entries[0].key}, allowed, good);
    }
  }

  lemma CleanCons(e: Entry, rest: seq<Entry>, taken: set<Text>, allowed: Text -> bool, good: Value -> bool,
                  s: State, s1: State, s2: State)
    requires allowed(e.key) && e.key !in taken && good(e.value) && CleanInTurn(rest, taken + {e.key}, allowed, good)
    requires Paid(Nodes(e.value), s, s1) && Paid(EntryNodes(rest), s1, s2)
    ensures CleanInTurn([e] + rest, taken, allowed, good) && Paid(EntryNodes([e] + rest), s, s2)
  {
    assert ([e] + rest)[1..] == rest;
  }

  /** What the entries' loop returns: at most `count` clean entries, paid for. */
  ghost predicate CleanResult(r: (seq<Entry>, State), count: nat, taken: set<Text>, allowed: Text -> bool,
                              good: Value -> bool, s: State) {
    |r.0| <= count && CleanInTurn(r.0, taken, allowed, good) && Paid(EntryNodes(r.0), s, r.1)
  }

  lemma EntrySound(visit: Visit, rule: KeyRule, allowed: Text -> bool, good: Value -> bool, entries: seq<Entry>,
                   count: nat, taken: set<Text>, s: State)
    requires s.nodesRemaining >= 0 && rule.Admits(allowed) && entries != [] && count > 0
    requires !rule.Drops(entries[0].key, taken) && Sound(visit, entries[0].value, good)
    requires var key := rule.cut(entries[0].key);
             var s1 := visit(entries[0].value, s.Mark(key != entries[0].key)).1;
             CleanResult(FoldEntries(visit, rule, entries[1..], count - 1, taken + {key}, s1),
                         count - 1, taken + {key}, allowed, good, s1)
    ensures CleanResult(FoldEntries(visit, rule, entries, count, taken, s), count, taken, allowed, good, s)
  {
    var key := rule.cut(entries[0].key);
    var (value, s1) := visit(entries[0].value, s.Mark(key != entries[0].key));
    var (rest, s2) := FoldEntries(visit, rule, entries[1..], count - 1, taken + {key}, s1);
    EntriesStep(visit, rule, entries, count, taken, s, key, value, s1, rest, s2);
    CleanCons(Entry(key, value), rest, taken, allowed, good, s, s1, s2);
  }

  lemma {:induction false} EntriesSound(visit: Visit, rule: KeyRule, allowed: Text -> bool, good: Value -> bool,
                                        entries: seq<Entry>, count: nat, taken: set<Text>, s: State)
    requires s.nodesRemaining >= 0 && rule.Admits(allowed) && forall e :: e in entries ==> Sound(visit, e.value, good)
    ensures CleanResult(FoldEntries(visit, rule, entries, count, taken, s), count, taken, allowed, good, s)
    decreases entries
  {
    if entries != [] && count != 0 {
      EntriesParts(entries);
      if rule.Drops(entries[0].key, taken) {
        EntriesSound(visit, rule, allowed, good, entries[1..], count - 1, taken, s.Mark(true));
        EntriesDrop(visit, rule, entries, count, taken, s);
      } else {
        var key := rule.cut(entries[0].key);
        assert Sound(visit, entries[0].value, good);
        var s1 := visit(entries[0].value, s.Mark(key != entries[0].key)).1;
        EntriesSound(visit, rule, allowed, good, entries[1..], count - 1, taken + {key}, s1);
        EntrySound(visit, rule, allowed, good, entries, count, taken, s);
      }
    }
  }

  lemma EntriesComeOutClean(visit: Visit, rule: KeyRule, allowed: Text -> bool, good: Value -> bool,
                            entries: seq<Entry>, count: nat, s: State, r: seq<Entry>, t: State)
    requires s.nodesRemaining >= 0 && rule.Admits(allowed) && forall e :: e in entries ==> Sound(visit, e.value, good)
    requires FoldEntries(visit, rule, entries, count, {}, s) == (r, t)
    ensures |r| <= count && Clean(r, {}, allowed, good) && Paid(EntryNodes(r), s, t)
  {
    EntriesSound(visit, rule, allowed, good, entries, count, {}, s);
    CleanEitherWay(r, {}, allowed, good);
  }

  // ---- No mark, no change --------------------------------------------------------

  /** Visiting keeps the mark, and without a mark returns the value itself. */
  ghost predicate Honest(visit: Visit, v: Value) {
    forall s: State {:trigger visit(v, s)} ::
      (s.truncated ==> visit(v, s).1.truncated) && (!visit(v, s).1.truncated ==> visit(v, s).0 == v)
  }

  lemma {:induction false} ItemsHonest(visit: Visit, items: seq<Value>, count: nat, s: State)
    requires forall x :: x in items ==> Honest(visit, x)
    ensures var (u, t) := FoldItems(visit, items, count, s);
            (s.truncated ==> t.truncated) && (!t.truncated && |items| <= count ==> u == items)
  {
    if items != [] && count != 0 {
      ItemsParts(items);
      var (first, s1) := visit(items[0], s);
      assert Honest(visit, items[0]);
      ItemsHonest(visit, items[1..], count - 1, s1);
      var (rest, s2) := FoldItems(visit, items[1..], count - 1, s1);
      ItemsStep(visit, items, count, s, first, s1, rest, s2);
    }
  }

  lemma {:induction false} EntriesHonest(visit: Visit, rule: KeyRule, entries: seq<Entry>, count: nat,
                                         taken: set<Text>, s: State)
    requires forall e :: e in entries ==> Honest(visit, e.value)
    ensures var (u, t) := FoldEntries(visit, rule, entries, count, taken, s);
            (s.truncated ==> t.truncated) && (!t.truncated && |entries| <= count ==> u == entries)
    decreases entries
  {
    if entries != [] && count != 0 {
      EntriesParts(entries);
      if rule.Drops(entries[0].key, taken) {
        EntriesHonest(visit, rule, entries[1..], count - 1, taken, s.Mark(true));
        EntriesDrop(visit, rule, entries, count, taken, s);
      } else {
        var key := rule.cut(entries[0].key);
        var (value, s1) := visit(entries[0].value, s.Mark(key != entries[0].key));
        assert Honest(visit, entries[0].value);
        EntriesHonest(visit, rule, entries[1..], count - 1, taken + {key}, s1);
        var (rest, s2) := FoldEntries(visit, rule, entries[1..], count - 1, taken + {key}, s1);
        EntriesStep(visit, rule, entries, count, taken, s, key, value, s1, rest, s2);
      }
    }
  }

  // ---- Copying -------------------------------------------------------------------

  function Spend(s: State, nodes: nat): State {
    s.(nodesRemaining := s.nodesRemaining - nodes)
  }

  /** In any state that can pay its cost, the visit copies the value. */
  ghost predicate CopiesFor(visit: Visit, cost: Value -> nat, v: Value) {
    forall s: State {:trigger visit(v, s)} :: cost(v) <= s.nodesRemaining ==> visit(v, s) == (v, Spend(s, cost(v)))
  }

  function ItemCosts(cost: Value -> nat, items: seq<Value>): nat {
    if items == [] then 0 else cost(items[0]) + ItemCosts(cost, items[1..])
  }

  function EntryCosts(cost: Value -> nat, entries: seq<Entry>): nat {
    if entries == [] then 0 else cost(entries[0].value) + EntryCosts(cost, entries[1..])
  }

  lemma {:induction false} ItemsCopiedFor(visit: Visit, cost: Value -> nat, items: seq<Value>, count: nat, s: State)
    requires forall x :: x in items ==> CopiesFor(visit, cost, x)
    requires |items| <= count && ItemCosts(cost, items) <= s.nodesRemaining
    ensures FoldItems(visit, items, count, s) == (items, Spend(s, ItemCosts(cost, items)))
  {
    if items != [] {
      var first, rest := items[0], items[1..];
      assert [first] + rest == items;
      var s1 := Spend(s, cost(first));
      assert visit(first, s) == (first, s1) by { assert CopiesFor(visit, cost, first); }
      ItemsCopiedFor(visit, cost, rest, count - 1, s1);
      ItemsStep(visit, items, count, s, first, s1, rest, Spend(s1, ItemCosts(cost, rest)));
    }
  }

  predicate KeptInTurn(rule: KeyRule, entries: seq<Entry>, taken: set<Text>) {
    entries == [] || (rule.Keeps(entries[0].key, taken) && KeptInTurn(rule, entries[1..], taken + {entries[0].key}))
  }

  ghost predicate CopiesEachFor(visit: Visit, cost: Value -> nat, entries: seq<Entry>) {
    forall e :: e in entries ==> CopiesFor(visit, cost, e.value)
  }

  lemma CopiesStep(visit: Visit, cost: Value -> nat, entries: seq<Entry>, s: State)
    requires CopiesEachFor(visit, cost, entries) && entries != [] && EntryCosts(cost, entries) <= s.nodesRemaining
    ensures visit(entries[0].value, s) == (entries[0].value, Spend(s, cost(entries[0].value)))
    ensures CopiesEachFor(visit, cost, entries[1..])
  {
    assert entries[0] in entries && CopiesFor(visit, cost, entries[0].value);
  }

  lemma EntryCopied(visit: Visit, rule: KeyRule, entries: seq<Entry>, count: nat, taken: set<Text>,
                    s: State, s1: State, s2: State)
    requires entries != [] && count > 0 && rule.Keeps(entries[0].key, taken)
    requires visit(entries[0].value, s) == (entries[0].value, s1)
    requires FoldEntries(visit, rule, entries[1..], count - 1, taken + {entries[0].key}, s1) == (entries[1..], s2)
    ensures FoldEntries(visit, rule, entries, count, taken, s) == (entries, s2)
  {
    EntriesParts(entries);
    assert s.Mark(false) == s;
    EntriesStep(visit, rule, entries, count, taken, s, entries[0].key, entries[0].value, s1, entries[1..], s2);
  }

  lemma {:induction false} EntriesCopiedFor(visit: Visit, cost: Value -> nat, rule: KeyRule, entries: seq<Entry>,
                                            count: nat, taken: set<Text>, s: State)
    requires KeptInTurn(rule, entries, taken) && CopiesEachFor(visit, cost, entries)
    requires |entries| <= count && EntryCosts(cost, entries) <= s.nodesRemaining
    ensures FoldEntries(visit, rule, entries, count, taken, s) == (entries, Spend(s, EntryCosts(cost, entries)))
    decreases entries
  {
    if entries != [] {
      CopiesStep(visit, cost, entries, s);
      var rest, s1 := entries[1..], Spend(s, cost(entries[0].value));
      EntriesCopiedFor(visit, cost, rule, rest, count - 1, taken + {entries[0].key}, s1);
      EntryCopied(visit, rule, entries, count, taken, s, s1, Spend(s1, EntryCosts(cost, rest)));
    }
  }

  /** The cost of a value is its number of nodes. */
  function NodeCost(): Value -> nat {
    v => Nodes(v)
  }

  ghost predicate Copies(visit: Visit, v: Value) {
    CopiesFor(visit, NodeCost(), v)
  }

  ghost predicate CopiesEach(visit: Visit, entries: seq<Entry>) {
    CopiesEachFor(visit, NodeCost(), entries)
  }

  lemma {:induction false} ItemCostsAreNodes(items: seq<Value>)
    ensures ItemCosts(NodeCost(), items) == ItemNodes(items)
  {
    if items != [] {
      ItemCostsAreNodes(items[1..]);
    }
  }

  lemma {:induction false} EntryCostsAreNodes(entries: seq<Entry>)
    ensures EntryCosts(NodeCost(), entries) == EntryNodes(entries)
  {
    if entries != [] {
      EntryCostsAreNodes(entries[1..]);
    }
  }

  lemma ItemsCopied(visit: Visit, items: seq<Value>, count: nat, s: State)
    requires (forall x :: x in items ==> Copies(visit, x)) && |items| <= count && ItemNodes(items) <= s.nodesRemaining
    ensures FoldItems(visit, items, count, s) == (items, Spend(s, ItemNodes(items)))
  {
    ItemCostsAreNodes(items);
    forall x | x in items ensures CopiesFor(visit, NodeCost(), x) {
      assert Copies(visit, x);
    }
    ItemsCopiedFor(visit, NodeCost(), items, count, s);
  }

  lemma EntriesCopied(visit: Visit, rule: KeyRule, entries: seq<Entry>, count: nat, taken: set<Text>, s: State)
    requires KeptInTurn(rule, entries, taken) && CopiesEach(visit, entries)
    requires |entries| <= count && EntryNodes(entries) <= s.nodesRemaining
    ensures FoldEntries(visit, rule, entries, count, taken, s) == (entries, Spend(s, EntryNodes(entries)))
  {
    EntryCostsAreNodes(entries);
    EntriesCopiedFor(visit, NodeCost(), rule, entries, count, taken, s);
  }

  // ---- The sanitizer's loops -----------------------------------------------------

  function At(depth: nat): Visit {
    (v, s) => SanitizeValue(v, depth, s)
  }

  /** Keys are cut to 64 bytes; empty and forbidden ones are dropped. */
  function Rule(): KeyRule {
    KeyRule(key => Truncated(key, KEY_MAX_BYTES), key => key == [] || Forbidden(key))
  }

  function Allowed(): Text -> bool {
    key => KeyAllowed(key)
  }

  lemma RuleAdmits()
    ensures Rule().Admits(Allowed())
  {
    forall key | !Rule().drop(Rule().cut(key)) ensures Allowed()(Rule().cut(key)) {
      TruncatedFits(key, KEY_MAX_BYTES);
    }
  }

  lemma RuleKeeps(key: Text, taken: set<Text>)
    requires KeyAllowed(key) && key !in taken
    ensures Rule().Keeps(key, taken)
  {
    TruncatedFits(key, KEY_MAX_BYTES);
  }

  lemma {:induction false} CleanIsKept(entries: seq<Entry>, taken: set<Text>, good: Value -> bool)
    requires CleanInTurn(entries, taken, Allowed(), good)
    ensures KeptInTurn(Rule(), entries, taken)
  {
    if entries != [] {
      RuleKeeps(entries[0].key, taken);
      CleanIsKept(entries[1..], taken + {entries[0].key}, good);
    }
  }

  lemma {:induction false} ItemsAreFold(items: seq<Value>, count: nat, depth: nat, s: State)
    ensures SanitizeItems(items, count, depth, s) == FoldItems(At(depth), items, count, s)
  {
    if items != [] && count != 0 {
      ItemsAreFold(items[1..], count - 1, depth, SanitizeValue(items[0], depth, s).1);
    }
  }

  lemma {:induction false} EntriesAreFold(entries: seq<Entry>, count: nat, taken: set<Text>, depth: nat, s: State)
    ensures SanitizeEntries(entries, count, taken, depth, s) == FoldEntries(At(depth), Rule(), entries, count, taken, s)
    decreases entries
  {
    if entries != [] && count != 0 {
      var key := Truncated(entries[0].key, KEY_MAX_BYTES);
      if key == [] || Forbidden(key) || key in taken {
        EntriesAreFold(entries[1..], count - 1, taken, depth, s.Mark(true));
      } else {
        var s1 := SanitizeValue(entries[0].value, depth, s.Mark(key != entries[0].key)).1;
        EntriesAreFold(entries[1..], count - 1, taken + {key}, depth, s1);
      }
    }
  }
}
