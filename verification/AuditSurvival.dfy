/**
 What survives the audit sanitizer: what each kind of value becomes, which parts come through
 unchanged, and which entries are left once the byte budget and the mark have taken their room. The
 statements are about JSON texts and plain prefixes, with the limits written out.
 */
module AuditSurvival {
  import opened AuditText
  import opened AuditMetadata
  import opened AuditEncoding
  import opened AuditFolds
  import opened AuditTheorems

  function Least(a: nat, b: nat): nat { if a <= b then a else b }

  // ---- One value -------------------------------------------------------------------

  /** The longest prefix of whole code points within the limit. */
  predicate LongestCut(cut: Text, t: Text, limit: nat) {
    && |cut| <= |t| && cut == t[..|cut|] && |Utf8Text(cut)| <= limit
    && (|cut| < |t| ==> |Utf8Text(t[..|cut| + 1])| > limit)
  }

  lemma TruncatedIsCut(t: Text, limit: nat)
    ensures LongestCut(Truncated(t, limit), t, limit)
  {
    TruncatedFits(t, limit);
    TruncatedIsLongest(t, limit);
    var cut := Truncated(t, limit);
    Utf8LengthIsExact(cut);
    if |cut| < |t| {
      Utf8LengthIsExact(t[..|cut| + 1]);
    }
  }

  /** What a value without parts becomes; it costs nothing, and is marked exactly when it changes. */
  lemma LeafIsExact(v: Value, depth: nat, s: State)
    requires !Container(v)
    ensures var (u, t) := SanitizeValue(v, depth, s);
            && (v.Null? || v.Bool? || v.Number? ==> u == v)
            && (v.NonFinite? || v.Undefined? || v.FunctionOrSymbol? ==> u == Null)
            && (v.Str? ==> u.Str? && LongestCut(u.text, v.text, 512))
            && (v.BigInt? ==> u.Str? && LongestCut(u.text, v.digits, 512))
            && t == State(s.nodesRemaining, s.truncated || u != v)
  {
    if v.Str? { TruncatedIsCut(v.text, 512); }
    if v.BigInt? { TruncatedIsCut(v.digits, 512); }
  }

  /** What stands for a value that is not entered. */
  lemma CutOffIsExact(v: Value, depth: nat, s: State)
    requires Container(v)
    ensures depth >= 4 ==>
              SanitizeValue(v, depth, s) == (Str(Ascii("[max_depth]")), State(s.nodesRemaining, true))
    ensures depth < 4 && s.nodesRemaining <= 0 ==>
              SanitizeValue(v, depth, s) == (Str(Ascii("[truncated]")), State(s.nodesRemaining, true))
    ensures depth < 4 && s.nodesRemaining > 0 && v.BackReference? ==>
              SanitizeValue(v, depth, s) == (Str(Ascii("[circular]")), State(s.nodesRemaining - 1, true))
    ensures depth < 4 && s.nodesRemaining > 0 && v.Unlistable? ==>
              SanitizeValue(v, depth, s) == (Obj([]), State(s.nodesRemaining - 1, true))
    ensures depth < 4 && s.nodesRemaining > 0 && v.Host? ==>
              SanitizeValue(v, depth, s) == (Obj([]), State(s.nodesRemaining - 1, s.truncated))
  {
  }

  // ---- Arrays and objects, step by step ----------------------------------------------

  lemma {:induction false} ItemsTrace(items: seq<Value>, count: nat, depth: nat, s: State) returns (states: seq<State>)
    ensures var (r, t) := SanitizeItems(items, count, depth, s);
            && |r| == Least(count, |items|) && |states| == |r| + 1 && states[0] == s && states[|r|] == t
            && forall i :: 0 <= i < |r| ==> (r[i], states[i + 1]) == SanitizeValue(items[i], depth, states[i])
    decreases |items|
  {
    if items == [] || count == 0 {
      states := [s];
    } else {
      var (first, s1) := SanitizeValue(items[0], depth, s);
      var rest := ItemsTrace(items[1..], count - 1, depth, s1);
      states := [s] + rest;
    }
  }

  /**
   An entered array keeps its first 32 items, each sanitized one level down in the state the item
   before it left; the mark is set when there are more.
   */
  lemma ArrayIsExact(items: seq<Value>, depth: nat, s: State) returns (states: seq<State>)
    requires depth < 4 && s.nodesRemaining > 0
    ensures var (u, t) := SanitizeValue(Arr(items), depth, s);
            && u.Arr? && |u.items| == Least(32, |items|) && |states| == |u.items| + 1
            && states[0] == State(s.nodesRemaining - 1, s.truncated || |items| > 32) && states[|u.items|] == t
            && forall i :: 0 <= i < |u.items| ==>
                 (u.items[i], states[i + 1]) == SanitizeValue(items[i], depth + 1, states[i])
  {
    states := ItemsTrace(items, 32, depth + 1, State(s.nodesRemaining - 1, s.truncated || |items| > 32));
  }

  /** The entries written so far, and the state. */
  type Progress = (seq<Entry>, State)

  predicate Unusable(key: Text, done: seq<Entry>) {
    || key == [] || key == Ascii("__proto__") || key == Ascii("prototype") || key == Ascii("constructor")
    || exists e :: e in done && e.key == key
  }

  /** One entry: dropped and marked if its cut key is unusable, else written under that key. */
  ghost predicate EntryTaken(e: Entry, depth: nat, before: Progress, after: Progress) {
    exists key :: LongestCut(key, e.key, 64) && EntryTakenAs(e, key, depth, before, after)
  }

  ghost predicate EntryTakenAs(e: Entry, key: Text, depth: nat, before: Progress, after: Progress) {
    var (done, s) := before;
    if Unusable(key, done) then after == (done, State(s.nodesRemaining, true))
    else
      var (value, t) := SanitizeValue(e.value, depth, State(s.nodesRemaining, s.truncated || key != e.key));
      after == (done + [Entry(key, value)], t)
  }

  lemma UnusableIs(key: Text, done: seq<Entry>)
    ensures Unusable(key, done) <==> key == [] || Forbidden(key) || key in KeySet(done)
  {
  }

  /** These steps take the entries one after the other, from `done` and `s` to what the loop adds. */
  ghost predicate EntriesTraced(entries: seq<Entry>, count: nat, done: seq<Entry>, depth: nat, s: State,
                                steps: seq<Progress>) {
    var (r, t) := SanitizeEntries(entries, count, KeySet(done), depth, s);
    var n := Least(count, |entries|);
    && |steps| == n + 1 && steps[0] == (done, s) && steps[n] == (done + r, t)
    && forall i :: 0 <= i < n ==> EntryTaken(entries[i], depth, steps[i], steps[i + 1])
  }

  lemma TraceMore(entries: seq<Entry>, count: nat, done: seq<Entry>, depth: nat, s: State, more: seq<Entry>, s1: State,
                  steps: seq<Progress>)
    requires entries != [] && count > 0 && EntriesTraced(entries[1..], count - 1, more, depth, s1, steps)
    requires EntryTaken(entries[0], depth, (done, s), (more, s1))
    requires var (r, t) := SanitizeEntries(entries[1..], count - 1, KeySet(more), depth, s1);
             var (r0, t0) := SanitizeEntries(entries, count, KeySet(done), depth, s);
             more + r == done + r0 && t == t0
    ensures EntriesTraced(entries, count, done, depth, s, [(done, s)] + steps)
  {
  }

  lemma UsableEntry(entries: seq<Entry>, count: nat, done: seq<Entry>, depth: nat, s: State)
    returns (more: seq<Entry>, s1: State)
    requires entries != [] && count > 0 && !Unusable(Truncated(entries[0].key, KEY_MAX_BYTES), done)
    ensures EntryTakenAs(entries[0], Truncated(entries[0].key, KEY_MAX_BYTES), depth, (done, s), (more, s1))
    ensures var (r, t) := SanitizeEntries(entries[1..], count - 1, KeySet(more), depth, s1);
            SanitizeEntries(entries, count, KeySet(done), depth, s) == ([more[|done|]] + r, t)
    ensures |more| == |done| + 1 && more == done + [more[|done|]]
  {
    var key := Truncated(entries[0].key, KEY_MAX_BYTES);
    UnusableIs(key, done);
    var result := SanitizeValue(entries[0].value, depth, s.Mark(key != entries[0].key));
    more, s1 := done + [Entry(key, result.0)], result.1;
    assert KeySet(more) == KeySet(done) + {key};
  }

  lemma EntryIsTaken(entries: seq<Entry>, count: nat, done: seq<Entry>, depth: nat, s: State)
    returns (more: seq<Entry>, s1: State)
    requires entries != [] && count > 0
    ensures EntryTaken(entries[0], depth, (done, s), (more, s1))
    ensures var (r, t) := SanitizeEntries(entries[1..], count - 1, KeySet(more), depth, s1);
            var (r0, t0) := SanitizeEntries(entries, count, KeySet(done), depth, s);
            more + r == done + r0 && t == t0
  {
    var key := Truncated(entries[0].key, KEY_MAX_BYTES);
    TruncatedIsCut(entries[0].key, 64);
    if Unusable(key, done) {
      UnusableIs(key, done);
      more, s1 := done, s.Mark(true);
    } else {
      more, s1 := UsableEntry(entries, count, done, depth, s);
    }
    assert EntryTakenAs(entries[0], key, depth, (done, s), (more, s1));
  }

  lemma {:induction false} EntriesTrace(entries: seq<Entry>, count: nat, done: seq<Entry>, depth: nat, s: State)
    returns (steps: seq<Progress>)
    ensures EntriesTraced(entries, count, done, depth, s, steps)
    decreases |entries|
  {
    if entries == [] || count == 0 {
      assert done + [] == done;
      steps := [(done, s)];
    } else {
      var more, s1 := EntryIsTaken(entries, count, done, depth, s);
      var rest := EntriesTrace(entries[1..], count - 1, more, depth, s1);
      TraceMore(entries, count, done, depth, s, more, s1, rest);
      steps := [(done, s)] + rest;
    }
  }

  /** An entered object takes its first 32 entries in order; the mark is set when there are more. */
  lemma ObjectIsExact(entries: seq<Entry>, depth: nat, s: State) returns (steps: seq<Progress>)
    requires depth < 4 && s.nodesRemaining > 0
    ensures var (u, t) := SanitizeValue(Obj(entries), depth, s);
            var n := Least(32, |entries|);
            && |steps| == n + 1 && u.Obj? && steps[n] == (u.entries, t)
            && steps[0] == ([], State(s.nodesRemaining - 1, s.truncated || |entries| > 32))
            && forall i :: 0 <= i < n ==> EntryTaken(entries[i], depth + 1, steps[i], steps[i + 1])
  {
    var s1 := State(s.nodesRemaining - 1, s.truncated || |entries| > 32);
    assert KeySet([]) == {};
    steps := EntriesTrace(entries, 32, [], depth + 1, s1);
    var r := SanitizeEntries(entries, 32, {}, depth + 1, s1).0;
    assert [] + r == r;
  }

  /** Without host objects, the traversal sets the mark exactly when it changes the value. */
  lemma MarkedExactlyWhenChanged(v: Value, depth: nat, s: State)
    requires HostFree(v) && s.nodesRemaining >= 0
    ensures var (u, t) := SanitizeValue(v, depth, s); t.truncated <==> s.truncated || u != v
  {
    var (u, t) := SanitizeValue(v, depth, s);
    SanitizedIsBounded(v, depth, s);
    if u == v {
      BoundedPassesThrough(v, depth, s);
    }
    if !t.truncated {
      UnmarkedIsUnchanged(v, depth, s);
    }
    if s.truncated {
      VisitIsHonest(v, depth);
      assert Honest(At(depth), v) && At(depth)(v, s) == SanitizeValue(v, depth, s);
    }
  }

  // ---- Good parts come through -----------------------------------------------------

  /** The number of arrays and objects that a visit may enter. */
  function Containers(v: Value): nat {
    match v
    case Arr(items) => 1 + ContainersOfItems(items)
    case Obj(entries) => 1 + ContainersOfEntries(entries)
    case _ => if Container(v) then 1 else 0
  }

  function ContainersOfItems(items: seq<Value>): nat {
    if items == [] then 0 else Containers(items[0]) + ContainersOfItems(items[1..])
  }

  function ContainersOfEntries(entries: seq<Entry>): nat {
    if entries == [] then 0 else Containers(entries[0].value) + ContainersOfEntries(entries[1..])
  }

  /** A visit spends at most the cost of the value. */
  ghost predicate SpendsFor(visit: Visit, cost: Value -> nat, v: Value) {
    forall s: State {:trigger visit(v, s)} :: visit(v, s).1.nodesRemaining + cost(v) >= s.nodesRemaining
  }

  lemma {:induction false} ItemsSpend(visit: Visit, cost: Value -> nat, items: seq<Value>, count: nat, s: State)
    requires forall x :: x in items ==> SpendsFor(visit, cost, x)
    ensures FoldItems(visit, items, count, s).1.nodesRemaining + ItemCosts(cost, items) >= s.nodesRemaining
  {
    if items != [] && count != 0 {
      var (first, s1) := visit(items[0], s);
      assert SpendsFor(visit, cost, items[0]);
      ItemsSpend(visit, cost, items[1..], count - 1, s1);
      var (rest, s2) := FoldItems(visit, items[1..], count - 1, s1);
      ItemsStep(visit, items, count, s, first, s1, rest, s2);
    }
  }

  lemma {:induction false} EntriesSpend(visit: Visit, cost: Value -> nat, rule: KeyRule, entries: seq<Entry>, count: nat,
                                        taken: set<Text>, s: State)
    requires forall e :: e in entries ==> SpendsFor(visit, cost, e.value)
    ensures FoldEntries(visit, rule, entries, count, taken, s).1.nodesRemaining + EntryCosts(cost, entries)
         >= s.nodesRemaining
    decreases entries
  {
    if entries != [] && count != 0 {
      EntriesParts(entries);
      if rule.Drops(entries[0].key, taken) {
        EntriesSpend(visit, cost, rule, entries[1..], count - 1, taken, s.Mark(true));
        EntriesDrop(visit, rule, entries, count, taken, s);
      } else {
        var key := rule.cut(entries[0].key);
        assert SpendsFor(visit, cost, entries[0].value);
        var (value, s1) := visit(entries[0].value, s.Mark(key != entries[0].key));
        EntriesSpend(visit, cost, rule, entries[1..], count - 1, taken + {key}, s1);
        var (rest, s2) := FoldEntries(visit, rule, entries[1..], count - 1, taken + {key}, s1);
        EntriesStep(visit, rule, entries, count, taken, s, key, value, s1, rest, s2);
      }
    }
  }

  function ContainerCost(): Value -> nat {
    v => Containers(v)
  }

  lemma {:induction false} ItemCostsAreContainers(items: seq<Value>)
    ensures ItemCosts(ContainerCost(), items) == ContainersOfItems(items)
  {
    if items != [] {
      ItemCostsAreContainers(items[1..]);
    }
  }

  lemma {:induction false} EntryCostsAreContainers(entries: seq<Entry>)
    ensures EntryCosts(ContainerCost(), entries) == ContainersOfEntries(entries)
  {
    if entries != [] {
      EntryCostsAreContainers(entries[1..]);
    }
  }

  /** No visit enters more than the arrays and objects of the value. */
  lemma {:induction false} VisitSpends(v: Value, depth: nat)
    ensures SpendsFor(At(depth), ContainerCost(), v)
    decreases v
  {
    if v.Arr? {
      forall x | x in v.items ensures SpendsFor(At(depth + 1), ContainerCost(), x) {
        VisitSpends(x, depth + 1);
      }
    } else if v.Obj? {
      forall e | e in v.entries ensures SpendsFor(At(depth + 1), ContainerCost(), e.value) {
        VisitSpends(e.value, depth + 1);
      }
    }
    forall s: State ensures At(depth)(v, s).1.nodesRemaining + Containers(v) >= s.nodesRemaining {
      if v.Arr? {
        ArraySpends(v.items, depth, s);
      } else if v.Obj? {
        ObjectSpends(v.entries, depth, s);
      }
    }
  }

  lemma ArraySpends(items: seq<Value>, depth: nat, s: State)
    requires forall x :: x in items ==> SpendsFor(At(depth + 1), ContainerCost(), x)
    ensures SanitizeValue(Arr(items), depth, s).1.nodesRemaining + Containers(Arr(items)) >= s.nodesRemaining
  {
    if depth < MAX_DEPTH && s.nodesRemaining > 0 {
      var s1 := s.(nodesRemaining := s.nodesRemaining - 1).Mark(|items| > MAX_ARRAY_ITEMS);
      ItemsSpend(At(depth + 1), ContainerCost(), items, MAX_ARRAY_ITEMS, s1);
      ItemCostsAreContainers(items);
      ItemsAreFold(items, MAX_ARRAY_ITEMS, depth + 1, s1);
    }
  }

  lemma ObjectSpends(entries: seq<Entry>, depth: nat, s: State)
    requires forall e :: e in entries ==> SpendsFor(At(depth + 1), ContainerCost(), e.value)
    ensures SanitizeValue(Obj(entries), depth, s).1.nodesRemaining + Containers(Obj(entries)) >= s.nodesRemaining
  {
    if depth < MAX_DEPTH && s.nodesRemaining > 0 {
      var s1, r, t := ObjectFolds(entries, depth, s);
      EntriesSpend(At(depth + 1), ContainerCost(), Rule(), entries, MAX_KEYS, {}, s1);
      EntryCostsAreContainers(entries);
    }
  }

  /** In any state that can pay for the value, the visit returns it. */
  ghost predicate Returns(visit: Visit, cost: Value -> nat, v: Value) {
    forall s: State {:trigger visit(v, s)} :: cost(v) <= s.nodesRemaining ==> visit(v, s).0 == v
  }

  lemma {:induction false} ItemReturned(visit: Visit, cost: Value -> nat, items: seq<Value>, count: nat, s: State, i: nat)
    requires (forall x :: x in items ==> SpendsFor(visit, cost, x)) && ItemCosts(cost, items) <= s.nodesRemaining
    requires i < |items| && i < count && Returns(visit, cost, items[i])
    ensures var (r, _) := FoldItems(visit, items, count, s); i < |r| && r[i] == items[i]
  {
    var (first, s1) := visit(items[0], s);
    assert SpendsFor(visit, cost, items[0]);
    var (rest, s2) := FoldItems(visit, items[1..], count - 1, s1);
    ItemsStep(visit, items, count, s, first, s1, rest, s2);
    if i == 0 {
      assert Returns(visit, cost, items[0]);
    } else {
      assert items[1..][i - 1] == items[i];
      ItemReturned(visit, cost, items[1..], count - 1, s1, i - 1);
    }
  }

  /** The key stays as it is, is not dropped, and no entry before is cut to it. */
  predicate KeyFree(rule: KeyRule, entries: seq<Entry>, taken: set<Text>, i: nat)
    requires i < |entries|
  {
    && rule.Keeps(entries[i].key, taken)
    && forall j :: 0 <= j < i ==> rule.cut(entries[j].key) != entries[i].key
  }

  lemma KeyFreeLater(rule: KeyRule, entries: seq<Entry>, taken: set<Text>, i: nat)
    requires 0 < i < |entries| && KeyFree(rule, entries, taken, i)
    ensures KeyFree(rule, entries[1..], taken, i - 1)
    ensures KeyFree(rule, entries[1..], taken + {rule.cut(entries[0].key)}, i - 1)
  {
    assert entries[1..][i - 1] == entries[i];
  }

  lemma {:induction false} EntryReturned(visit: Visit, cost: Value -> nat, rule: KeyRule, entries: seq<Entry>, count: nat,
                                         taken: set<Text>, s: State, i: nat)
    requires (forall e :: e in entries ==> SpendsFor(visit, cost, e.value)) && EntryCosts(cost, entries) <= s.nodesRemaining
    requires i < |entries| && i < count && KeyFree(rule, entries, taken, i) && Returns(visit, cost, entries[i].value)
    ensures entries[i] in FoldEntries(visit, rule, entries, count, taken, s).0
    decreases entries
  {
    EntriesParts(entries);
    var key, later := rule.cut(entries[0].key), entries[1..];
    assert i > 0 ==> later[i - 1] == entries[i];
    if rule.Drops(entries[0].key, taken) {
      EntriesDrop(visit, rule, entries, count, taken, s);
      KeyFreeLater(rule, entries, taken, i);
      EntryReturned(visit, cost, rule, later, count - 1, taken, s.Mark(true), i - 1);
    } else {
      var (value, s1) := visit(entries[0].value, s.Mark(key != entries[0].key));
      assert s1.nodesRemaining + cost(entries[0].value) >= s.nodesRemaining by {
        assert SpendsFor(visit, cost, entries[0].value);
      }
      var (rest, s2) := FoldEntries(visit, rule, later, count - 1, taken + {key}, s1);
      EntriesStep(visit, rule, entries, count, taken, s, key, value, s1, rest, s2);
      if i == 0 {
        assert Returns(visit, cost, entries[0].value);
      } else {
        KeyFreeLater(rule, entries, taken, i);
        EntryReturned(visit, cost, rule, later, count - 1, taken + {key}, s1, i - 1);
      }
    }
  }

  lemma {:induction false} NodesAreContainers(v: Value)
    requires HostFree(v)
    ensures Nodes(v) <= Containers(v)
  {
    match v {
      case Arr(items) => NodesAreContainersOfItems(items);
      case Obj(entries) => NodesAreContainersOfEntries(entries);
      case _ =>
    }
  }

  lemma {:induction false} NodesAreContainersOfItems(items: seq<Value>)
    requires forall x :: x in items ==> HostFree(x)
    ensures ItemNodes(items) <= ContainersOfItems(items)
  {
    if items != [] {
      NodesAreContainers(items[0]);
      NodesAreContainersOfItems(items[1..]);
    }
  }

  lemma {:induction false} NodesAreContainersOfEntries(entries: seq<Entry>)
    requires forall e :: e in entries ==> EntryHostFree(e)
    ensures EntryNodes(entries) <= ContainersOfEntries(entries)
  {
    if entries != [] {
      assert EntryHostFree(entries[0]);
      NodesAreContainers(entries[0].value);
      NodesAreContainersOfEntries(entries[1..]);
    }
  }

  lemma GoodReturns(v: Value, depth: nat)
    requires Good(v, depth)
    ensures Returns(At(depth), ContainerCost(), v)
  {
    NodesAreContainers(v);
    forall s: State | Containers(v) <= s.nodesRemaining ensures At(depth)(v, s).0 == v {
      BoundedPassesThrough(v, depth, s);
    }
  }

  /** When the budget covers the array, every good item among the first 32 stays in place, whatever its neighbours are. */
  lemma GoodItemSurvives(items: seq<Value>, depth: nat, s: State, i: nat)
    requires depth < 4 && Containers(Arr(items)) <= s.nodesRemaining
    requires i < |items| && i < 32 && Good(items[i], depth + 1)
    ensures var u := SanitizeValue(Arr(items), depth, s).0; u.Arr? && i < |u.items| && u.items[i] == items[i]
  {
    var s1 := s.(nodesRemaining := s.nodesRemaining - 1).Mark(|items| > MAX_ARRAY_ITEMS);
    forall x | x in items ensures SpendsFor(At(depth + 1), ContainerCost(), x) {
      VisitSpends(x, depth + 1);
    }
    GoodReturns(items[i], depth + 1);
    ItemCostsAreContainers(items);
    ItemReturned(At(depth + 1), ContainerCost(), items, MAX_ARRAY_ITEMS, s1, i);
    ItemsAreFold(items, MAX_ARRAY_ITEMS, depth + 1, s1);
  }

  /**
   When the budget covers the object, every good entry among the first 32 comes through, whatever its
   neighbours are, unless a longer key before it is cut to its key.
   */
  lemma GoodEntrySurvives(entries: seq<Entry>, depth: nat, s: State, i: nat)
    requires depth < 4 && Containers(Obj(entries)) <= s.nodesRemaining
    requires i < |entries| && i < 32 && KeyAllowed(entries[i].key) && Good(entries[i].value, depth + 1)
    requires forall j :: 0 <= j < i ==> !LongestCut(entries[i].key, entries[j].key, 64)
    ensures var u := SanitizeValue(Obj(entries), depth, s).0; u.Obj? && entries[i] in u.entries
  {
    var s1, r, t := ObjectFolds(entries, depth, s);
    forall e | e in entries ensures SpendsFor(At(depth + 1), ContainerCost(), e.value) {
      VisitSpends(e.value, depth + 1);
    }
    GoodReturns(entries[i].value, depth + 1);
    EntryCostsAreContainers(entries);
    RuleKeeps(entries[i].key, {});
    forall j | 0 <= j < i ensures Rule().cut(entries[j].key) != entries[i].key {
      TruncatedIsCut(entries[j].key, 64);
    }
    EntryReturned(At(depth + 1), ContainerCost(), Rule(), entries, MAX_KEYS, {}, s1, i);
  }

  // ---- The byte budget -------------------------------------------------------------

  /** The number of bytes of the JSON text of an object. */
  function JsonSize(entries: seq<Entry>): nat { |Utf8Text(Stringify(Obj(entries)))| }

  predicate PlainData(entries: seq<Entry>) {
    forall e :: e in entries ==> EntryHostFree(e)
  }

  lemma JsonSizeIsExact(entries: seq<Entry>)
    requires PlainData(entries)
    ensures JsonSize(entries) == ObjectLength(entries)
  {
    Utf8LengthIsExact(Stringify(Obj(entries)));
    SerializedLengthIsExact(Obj(entries));
  }

  lemma {:induction false} FitAppend(a: seq<Entry>, e: Entry, bounded: seq<Entry>)
    ensures var (r, dropped) := Fit(a, bounded);
            Fit(a + [e], bounded) ==
            if ObjectLength(r + [e]) <= METADATA_MAX_BYTES then (r + [e], dropped) else (r, true)
  {
    if a == [] {
      assert (a + [e])[1..] == [];
    } else {
      assert (a + [e])[1..] == a[1..] + [e];
      var fits := ObjectLength(bounded + [a[0]]) <= METADATA_MAX_BYTES;
      FitAppend(a[1..], e, if fits then bounded + [a[0]] else bounded);
    }
  }

  lemma {:induction false} FitIsPlain(entries: seq<Entry>, bounded: seq<Entry>)
    requires PlainData(entries) && PlainData(bounded)
    ensures PlainData(Fit(entries, bounded).0)
  {
    if entries != [] {
      FitIsPlain(entries[1..], bounded + [entries[0]]);
      FitIsPlain(entries[1..], bounded);
    }
  }

  /**
   Fitting is greedy in the order of the entries: the next entry is kept exactly when the JSON text
   with it is at most 4096 bytes, and reported as dropped otherwise.
   */
  lemma FitIsExact(a: seq<Entry>, e: Entry)
    requires PlainData(a) && EntryHostFree(e)
    ensures Fit([], []) == ([], false)
    ensures var (kept, dropped) := Fit(a, []);
            Fit(a + [e], []) == if JsonSize(kept + [e]) <= 4096 then (kept + [e], dropped) else (kept, true)
  {
    FitAppend(a, e, []);
    FitIsPlain(a, []);
    JsonSizeIsExact(Fit(a, []).0 + [e]);
  }

  /** The mark is assigned: in place of an entry of that name, or after the others. */
  predicate Assigned(entries: seq<Entry>, r: seq<Entry>) {
    var mark := Entry(Ascii("_truncated"), Bool(true));
    || (r == entries + [mark] && forall e :: e in entries ==> e.key != mark.key)
    || exists i :: 0 <= i < |entries| && entries[i].key == mark.key && r == entries[i := mark]
  }

  lemma {:induction false} WithFlagIsExact(entries: seq<Entry>)
    ensures Assigned(entries, WithFlag(entries))
  {
    if entries != [] && entries[0].key == FLAG {
      assert WithFlag(entries) == entries[0 := FLAGGED];
    } else if entries != [] {
      var rest, r := entries[1..], WithFlag(entries[1..]);
      WithFlagIsExact(rest);
      assert entries == [entries[0]] + rest;
      if i :| 0 <= i < |rest| && rest[i].key == FLAG && r == rest[i := FLAGGED] {
        assert entries[i + 1].key == FLAG && WithFlag(entries) == entries[i + 1 := FLAGGED];
      } else {
        assert WithFlag(entries) == entries + [FLAGGED];
      }
    }
  }

  /** With the mark there are at most 32 entries and 4096 bytes, before it fewer than 32. */
  ghost predicate Room(entries: seq<Entry>) {
    |entries| < 32 && exists r :: Assigned(entries, r) && JsonSize(r) <= 4096
  }

  lemma AssignedIsOne(entries: seq<Entry>, r: seq<Entry>)
    requires DistinctKeys(entries) && Assigned(entries, r)
    ensures r == WithFlag(entries)
  {
    WithFlagIsExact(entries);
  }

  lemma RoomIsExact(entries: seq<Entry>)
    requires PlainData(entries) && DistinctKeys(entries)
    ensures Room(entries) <==> !NeedsTrim(entries)
  {
    var r := WithFlag(entries);
    WithFlagIsExact(entries);
    FlagKeeps(entries);
    assert PlainData(r);
    JsonSizeIsExact(r);
    forall x | Assigned(entries, x) ensures x == r {
      AssignedIsOne(entries, x);
    }
  }

  lemma {:induction false} TrimIsLongest(test: seq<Entry> -> bool, bounded: seq<Entry>) returns (n: nat)
    requires !test([])
    ensures n <= |bounded| && TrimWhile(test, bounded) == bounded[..n] && !test(bounded[..n])
    ensures forall m :: n < m <= |bounded| ==> test(bounded[..m])
  {
    n := |bounded|;
    assert bounded[..n] == bounded;
    if bounded != [] && test(bounded) {
      var shorter := bounded[..|bounded| - 1];
      n := TrimIsLongest(test, shorter);
      forall m | n < m <= |bounded| ensures test(bounded[..m]) {
        assert m < |bounded| ==> bounded[..m] == shorter[..m];
      }
      assert bounded[..n] == shorter[..n];
    }
  }

  /** Everything a trimmed result says about the entries it came from. */
  ghost predicate Trimmed(fitted: seq<Entry>, r: seq<Entry>) {
    exists n {:trigger fitted[..n]} :: 0 <= n <= |fitted| && Assigned(fitted[..n], r) && Room(fitted[..n])
      && forall m :: n < m <= |fitted| ==> !Room(fitted[..m])
  }

  lemma PrefixDistinct(entries: seq<Entry>, n: nat)
    requires n <= |entries| && DistinctKeys(entries) && PlainData(entries)
    ensures DistinctKeys(entries[..n]) && PlainData(entries[..n])
  {
  }

  lemma FlaggedIsTrimmed(fitted: seq<Entry>)
    requires DistinctKeys(fitted) && PlainData(fitted)
    ensures Trimmed(fitted, WithFlag(Trim(fitted)))
  {
    FlagAloneFits();
    var n := TrimIsLongest(TrimTest(), fitted);
    forall m | 0 <= m <= |fitted| ensures Room(fitted[..m]) <==> !TrimTest()(fitted[..m]) {
      PrefixDistinct(fitted, m);
      RoomIsExact(fitted[..m]);
    }
    WithFlagIsExact(fitted[..n]);
  }

  // ---- The whole sanitizer -----------------------------------------------------------

  /** No metadata passes through; anything that is not an object becomes the mark alone. */
  lemma OthersBecomeTheMark(v: Value)
    ensures v.Null? || v.Undefined? ==> Sanitize(v) == v
    ensures !v.Null? && !v.Undefined? && !v.Obj? && !v.Unlistable? && !v.Host? ==>
              Sanitize(v) == Obj([Entry(Ascii("_truncated"), Bool(true))])
  {
    RootIsObject(v);
  }

  /**
   What the sanitizer returns for an object: the traversed entries, fitted; and once the traversal
   changed something or an entry did not fit, the longest prefix of the fitted entries that leaves
   room for the mark, with the mark.
   */
  lemma SurvivorsAreExact(v: Value)
    requires v.Obj? || v.Unlistable? || v.Host?
    ensures var (u, t) := SanitizeValue(v, 0, State(256, false));
            && u.Obj? && Sanitize(v).Obj?
            && var (fitted, dropped) := Fit(u.entries, []);
            if t.truncated || dropped then Trimmed(fitted, Sanitize(v).entries)
            else Sanitize(v) == u && fitted == u.entries
  {
    RootIsObject(v);
    SanitizedIsBounded(v, 0, FULL);
    var (u, t) := SanitizeValue(v, 0, FULL);
    GoodObjectEntries(u);
    FitGood(u.entries);
    FitIsPlain(u.entries, []);
    FlaggedIsTrimmed(Fit(u.entries, []).0);
  }

  /** If the mark has room at once, every fitted entry survives. */
  lemma NothingIsTrimmedInVain(fitted: seq<Entry>, r: seq<Entry>)
    requires Trimmed(fitted, r) && Room(fitted)
    ensures Assigned(fitted, r)
  {
    assert fitted[..|fitted|] == fitted;
  }

  /** A traversed object that fits with and without the mark comes out whole. */
  lemma SmallSurvivesWhole(v: Value)
    requires v.Obj? || v.Unlistable? || v.Host?
    requires var (u, t) := SanitizeValue(v, 0, State(256, false));
             u.Obj? && t.truncated && JsonSize(u.entries) <= 4096 && Room(u.entries)
    ensures Sanitize(v).Obj? && Assigned(SanitizeValue(v, 0, State(256, false)).0.entries, Sanitize(v).entries)
  {
    SurvivorsAreExact(v);
    SanitizedIsBounded(v, 0, FULL);
    var (u, t) := SanitizeValue(v, 0, FULL);
    GoodObjectEntries(u);
    JsonSizeIsExact(u.entries);
    FitGood(u.entries);
    NothingIsTrimmedInVain(u.entries, Sanitize(v).entries);
  }
}
