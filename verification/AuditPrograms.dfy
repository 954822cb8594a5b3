/**
 src/security/audit-sanitize.ts in its own form: traversals that update shared counters, and loops
 that build and trim the result. Each is proved against its specification in AuditMetadata.
 */
module AuditPrograms {
  import opened Wrappers
  import opened AuditText
  import opened AuditMetadata
  import opened AuditTheorems

  class SanitizeState {
    var nodesRemaining: int
    var truncated: bool

    constructor ()
      ensures View() == State(MAX_NODES, false)
    {
      nodesRemaining, truncated := MAX_NODES, false;
    }

    ghost function View(): State
      reads this
    {
      State(nodesRemaining, truncated)
    }
  }

  method SanitizeValueInPlace(value: Value, depth: nat, state: SanitizeState) returns (u: Value)
    modifies state
    ensures (u, state.View()) == SanitizeValue(value, depth, old(state.View()))
    decreases value, 0
  {
    match value {
      case Str(text) =>
        var sanitized := TruncateUtf8(text, STRING_MAX_BYTES);
        if sanitized != text {
          state.truncated := true;
        }
        return Str(sanitized);
      case BigInt(digits) =>
        state.truncated := true;
        var text := TruncateUtf8(digits, STRING_MAX_BYTES);
        return Str(text);
      case Null => return Null;
      case Bool(_) => return value;
      case Number(_) => return value;
      case NonFinite => state.truncated := true; return Null;
      case Undefined => state.truncated := true; return Null;
      case FunctionOrSymbol => state.truncated := true; return Null;
      case _ =>
    }
    if depth >= MAX_DEPTH {
      state.truncated := true;
      return Str(MAX_DEPTH_TEXT);
    }
    if state.nodesRemaining <= 0 {
      state.truncated := true;
      return Str(TRUNCATED_TEXT);
    }
    state.nodesRemaining := state.nodesRemaining - 1;
    if value.BackReference? {
      state.truncated := true;
      return Str(CIRCULAR_TEXT);
    }
    if value.Arr? {
      if |value.items| > MAX_ARRAY_ITEMS {
        state.truncated := true;
      }
      var result := SanitizeItemsInPlace(value.items, depth + 1, state);
      return Arr(result);
    }
    if value.Unlistable? {
      state.truncated := true;
      return Obj([]);
    }
    if value.Host? {
      return Obj([]);
    }
    if |value.entries| > MAX_KEYS {
      state.truncated := true;
    }
    var result := SanitizeEntriesInPlace(value.entries, depth + 1, state);
    return Obj(result);
  }

  method SanitizeItemsInPlace(items: seq<Value>, depth: nat, state: SanitizeState) returns (result: seq<Value>)
    modifies state
    ensures (result, state.View()) == SanitizeItems(items, MAX_ARRAY_ITEMS, depth, old(state.View()))
    decreases items, 1
  {
    result := [];
    var i := 0;
    ghost var start := state.View();
    ItemsStart(items, depth, start);
    while i < |items| && i < MAX_ARRAY_ITEMS
      invariant 0 <= i <= |items| && i <= MAX_ARRAY_ITEMS
      invariant ItemsDone(items, i, result, depth, start, state.View())
    {
      ItemKept(items, i, result, depth, start, state.View());
      var item := SanitizeValueInPlace(items[i], depth, state);
      result := result + [item];
      i := i + 1;
    }
    assert result + [] == result;
  }

  /** After `i` items the result so far, completed by the rest, is what the specification says. */
  ghost predicate ItemsDone(items: seq<Value>, i: nat, result: seq<Value>, depth: nat, start: State, now: State)
    requires i <= |items| && i <= MAX_ARRAY_ITEMS
  {
    var (rest, end) := SanitizeItems(items[i..], MAX_ARRAY_ITEMS - i, depth, now);
    SanitizeItems(items, MAX_ARRAY_ITEMS, depth, start) == (result + rest, end)
  }

  lemma ItemsStart(items: seq<Value>, depth: nat, start: State)
    ensures ItemsDone(items, 0, [], depth, start, start)
  {
    assert items[0..] == items;
    var all := SanitizeItems(items, MAX_ARRAY_ITEMS, depth, start).0;
    assert [] + all == all;
  }

  lemma ItemKept(items: seq<Value>, i: nat, result: seq<Value>, depth: nat, start: State, now: State)
    requires i < |items| && i < MAX_ARRAY_ITEMS && ItemsDone(items, i, result, depth, start, now)
    ensures var (item, s) := SanitizeValue(items[i], depth, now);
            ItemsDone(items, i + 1, result + [item], depth, start, s)
  {
    assert items[i..][1..] == items[i + 1..];
    var (item, s) := SanitizeValue(items[i], depth, now);
    var rest := SanitizeItems(items[i + 1..], MAX_ARRAY_ITEMS - i - 1, depth, s).0;
    assert result + ([item] + rest) == (result + [item]) + rest;
  }

  /** After `i` entries the result so far, completed by the rest, is what the specification says. */
  ghost predicate EntriesDone(entries: seq<Entry>, i: nat, result: seq<Entry>, depth: nat, start: State, now: State)
    requires i <= |entries| && i <= MAX_KEYS
  {
    var (rest, end) := SanitizeEntries(entries[i..], MAX_KEYS - i, KeySet(result), depth, now);
    SanitizeEntries(entries, MAX_KEYS, {}, depth, start) == (result + rest, end)
  }

  lemma EntryDropped(entries: seq<Entry>, i: nat, result: seq<Entry>, depth: nat, start: State, now: State)
    requires i < |entries| && i < MAX_KEYS && EntriesDone(entries, i, result, depth, start, now)
    requires var key := Truncated(entries[i].key, KEY_MAX_BYTES);
             key == [] || Forbidden(key) || key in KeySet(result)
    ensures EntriesDone(entries, i + 1, result, depth, start, now.Mark(true))
  {
  }

  lemma EntryKept(entries: seq<Entry>, i: nat, result: seq<Entry>, depth: nat, start: State, now: State)
    requires i < |entries| && i < MAX_KEYS && EntriesDone(entries, i, result, depth, start, now)
    requires var key := Truncated(entries[i].key, KEY_MAX_BYTES);
             key != [] && !Forbidden(key) && key !in KeySet(result)
    ensures var key := Truncated(entries[i].key, KEY_MAX_BYTES);
            var (value, s) := SanitizeValue(entries[i].value, depth, now.Mark(key != entries[i].key));
            EntriesDone(entries, i + 1, result + [Entry(key, value)], depth, start, s)
  {
    assert entries[i..][1..] == entries[i + 1..];
    var key := Truncated(entries[i].key, KEY_MAX_BYTES);
    var (value, s) := SanitizeValue(entries[i].value, depth, now.Mark(key != entries[i].key));
    var e := Entry(key, value);
    assert KeySet(result + [e]) == KeySet(result) + {key};
    var rest := SanitizeEntries(entries[i + 1..], MAX_KEYS - i - 1, KeySet(result) + {key}, depth, s).0;
    assert result + ([e] + rest) == (result + [e]) + rest;
  }

  method SanitizeEntriesInPlace(entries: seq<Entry>, depth: nat, state: SanitizeState)
    returns (result: seq<Entry>)
    modifies state
    ensures (result, state.View()) == SanitizeEntries(entries, MAX_KEYS, {}, depth, old(state.View()))
    decreases entries, 1
  {
    result := [];
    var i := 0;
    ghost var start := state.View();
    EntriesStart(entries, depth, start);
    while i < |entries| && i < MAX_KEYS
      invariant 0 <= i <= |entries| && i <= MAX_KEYS
      invariant EntriesDone(entries, i, result, depth, start, state.View())
    {
      var key := TruncateUtf8(entries[i].key, KEY_MAX_BYTES);
      if key == [] || Forbidden(key) || key in KeySet(result) {
        EntryDropped(entries, i, result, depth, start, state.View());
        state.truncated := true;
        i := i + 1;
        continue;
      }
      EntryKept(entries, i, result, depth, start, state.View());
      if key != entries[i].key {
        state.truncated := true;
      }
      var value := SanitizeValueInPlace(entries[i].value, depth, state);
      result := result + [Entry(key, value)];
      i := i + 1;
    }
    assert result + [] == result;
  }

  lemma EntriesStart(entries: seq<Entry>, depth: nat, start: State)
    ensures EntriesDone(entries, 0, [], depth, start, start)
  {
    assert entries[0..] == entries && KeySet([]) == {};
    var r := SanitizeEntries(entries, MAX_KEYS, {}, depth, start).0;
    assert [] + r == r;
  }

  lemma FitStep(entries: seq<Entry>, bounded: seq<Entry>, i: nat)
    requires i < |entries|
    ensures Fit(entries[i..], bounded) ==
            if ObjectLength(bounded + [entries[i]]) <= METADATA_MAX_BYTES
            then Fit(entries[i + 1..], bounded + [entries[i]])
            else (Fit(entries[i + 1..], bounded).0, true)
  {
  }

  /** Copies entries while the object still fits, and reports whether one did not. */
  method FitEntries(entries: seq<Entry>) returns (bounded: seq<Entry>, dropped: bool)
    ensures (bounded, dropped) == Fit(entries, [])
  {
    bounded, dropped := [], false;
    var i := 0;
    assert entries[0..] == entries;
    while i < |entries|
      invariant 0 <= i <= |entries|
      invariant Fit(entries[i..], bounded).0 == Fit(entries, []).0
      invariant dropped || Fit(entries[i..], bounded).1 <==> Fit(entries, []).1
    {
      FitStep(entries, bounded, i);
      var candidate := bounded + [entries[i]];
      if SerializedLength(Obj(candidate)) <= METADATA_MAX_BYTES {
        bounded := candidate;
      } else {
        dropped := true;
      }
      i := i + 1;
    }
  }

  /** Drops last entries until the flag fits, and sets it. */
  method TrimAndFlag(full: seq<Entry>) returns (bounded: seq<Entry>)
    ensures bounded == WithFlag(Trim(full))
  {
    bounded := full;
    while NeedsTrim(bounded)
      invariant Trim(bounded) == Trim(full)
      decreases |bounded|
    {
      if bounded == [] {
        break;
      }
      assert TrimTest()(bounded);
      bounded := bounded[..|bounded| - 1];
    }
    assert Trim(bounded) == bounded by { assert !TrimTest()(bounded) || bounded == []; }
    bounded := WithFlag(bounded);
  }

  /** The whole sanitizer; its result is accepted by the validator, and without host objects unchanged or marked. */
  method SanitizeAuditMetadata(metadata: Value) returns (r: Value)
    ensures r == Sanitize(metadata)
    ensures !Missing(metadata) ==> r.Obj? && Accepts(r) && (HostFree(metadata) ==> r == metadata || FLAGGED in r.entries)
  {
    if metadata.Null? || metadata.Undefined? {
      return metadata;
    }
    SanitizedObject(metadata);
    var state := new SanitizeState();
    var sanitized := SanitizeValueInPlace(metadata, 0, state);
    if !sanitized.Obj? {
      return Obj([Entry(FLAG, Bool(true))]);
    }
    var bounded, dropped := FitEntries(sanitized.entries);
    if dropped {
      state.truncated := true;
    }
    if state.truncated {
      bounded := TrimAndFlag(bounded);
    }
    return Obj(bounded);
  }

  class NodeCounter {
    var nodes: nat

    constructor ()
      ensures nodes == 0
    {
      nodes := 0;
    }
  }

  method IsBoundedValue(value: Value, depth: nat, state: NodeCounter) returns (ok: bool)
    modifies state
    ensures ok <==> Check(value, depth, old(state.nodes)).Some?
    ensures ok ==> Check(value, depth, old(state.nodes)) == Some(state.nodes)
    decreases value, 0
  {
    match value {
      case Null => return true;
      case Bool(_) => return true;
      case Str(text) => return Utf8Length(text) <= STRING_MAX_BYTES;
      case Number(_) => return true;
      case NonFinite => return false;
      case _ =>
    }
    if !Container(value) || depth >= MAX_DEPTH {
      return false;
    }
    state.nodes := state.nodes + 1;
    if state.nodes > MAX_NODES || value.BackReference? {
      return false;
    }
    if value.Host? {
      return true;
    }
    if value.Unlistable? {
      return false;
    }
    if value.Arr? {
      if |value.items| > MAX_ARRAY_ITEMS {
        return false;
      }
      ok := EveryItemIsBounded(value.items, depth + 1, state);
    } else {
      if |value.entries| > MAX_KEYS {
        return false;
      }
      ok := EveryEntryIsBounded(value.entries, depth + 1, state);
    }
  }

  method EveryItemIsBounded(items: seq<Value>, depth: nat, state: NodeCounter) returns (ok: bool)
    modifies state
    ensures ok <==> CheckItems(items, depth, old(state.nodes)).Some?
    ensures ok ==> CheckItems(items, depth, old(state.nodes)) == Some(state.nodes)
    decreases items, 1
  {
    ghost var start := state.nodes;
    var i := 0;
    while i < |items|
      invariant 0 <= i <= |items|
      invariant CheckItems(items[i..], depth, state.nodes) == CheckItems(items, depth, start)
    {
      assert items[i..][0] == items[i] && items[i..][1..] == items[i + 1..];
      ok := IsBoundedValue(items[i], depth, state);
      if !ok {
        return false;
      }
      i := i + 1;
    }
    return true;
  }

  method EveryEntryIsBounded(entries: seq<Entry>, depth: nat, state: NodeCounter) returns (ok: bool)
    modifies state
    ensures ok <==> CheckEntries(entries, depth, old(state.nodes)).Some?
    ensures ok ==> CheckEntries(entries, depth, old(state.nodes)) == Some(state.nodes)
    decreases entries, 1
  {
    ghost var start := state.nodes;
    var i := 0;
    while i < |entries|
      invariant 0 <= i <= |entries|
      invariant CheckEntries(entries[i..], depth, state.nodes) == CheckEntries(entries, depth, start)
    {
      assert entries[i..][0] == entries[i] && entries[i..][1..] == entries[i + 1..];
      if !KeyAllowed(entries[i].key) {
        return false;
      }
      ok := IsBoundedValue(entries[i].value, depth, state);
      if !ok {
        return false;
      }
      i := i + 1;
    }
    return true;
  }

  method IsBoundedAuditMetadata(value: Value) returns (ok: bool)
    ensures ok <==> Accepts(value)
  {
    if (!value.Obj? && !value.Host?) || SerializedLength(value) > METADATA_MAX_BYTES {
      return false;
    }
    var state := new NodeCounter();
    ok := IsBoundedValue(value, 0, state);
  }
}
