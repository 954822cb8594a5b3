/**
 The audit sanitizer and the audit validator (src/security/audit-sanitize.ts), two traversals with
 their own budgets, as functions that thread their state.

 A value is what application code may pass: JSON data, non-finite numbers, big integers, other
 primitives, an object whose entries cannot be listed, a host object such as a Date or a Map, which
 has no enumerable entries and serializes in its own way, and a reference back to an enclosing
 object. Object keys are distinct in every real object (`WellFormed`).
 */
module AuditMetadata {
  import opened Wrappers
  import opened AuditText

  const METADATA_MAX_BYTES := 4096
  const MAX_KEYS := 32
  const KEY_MAX_BYTES := 64
  const MAX_DEPTH := 4
  const MAX_ARRAY_ITEMS := 32
  const STRING_MAX_BYTES := 512
  const MAX_NODES := 256

  datatype Value =
    | Null
    | Undefined
    | Bool(b: bool)
    | Number(digits: Text)
    | NonFinite
    | BigInt(digits: Text)
    | FunctionOrSymbol
    | Str(text: Text)
    | Arr(items: seq<Value>)
    | Obj(entries: seq<Entry>)
    | Unlistable
    | Host(serializedLength: nat)
    | BackReference

  datatype Entry = Entry(key: Text, value: Value)

  const MAX_DEPTH_TEXT: Text := Ascii("[max_depth]")
  const TRUNCATED_TEXT: Text := Ascii("[truncated]")
  const CIRCULAR_TEXT: Text := Ascii("[circular]")
  const FLAG: Text := Ascii("_truncated")

  predicate Forbidden(key: Text) {
    key == Ascii("__proto__") || key == Ascii("prototype") || key == Ascii("constructor")
  }

  function KeySet(entries: seq<Entry>): set<Text> {
    set e | e in entries :: e.key
  }

  // ---- The sanitizer ---------------------------------------------------------

  datatype State = State(nodesRemaining: int, truncated: bool) {
    function Mark(condition: bool): State {
      this.(truncated := truncated || condition)
    }
  }

  predicate Container(v: Value) {
    v.Arr? || v.Obj? || v.Unlistable? || v.Host? || v.BackReference?
  }

  function SanitizeLeaf(v: Value): Value
    requires !Container(v)
  {
    match v
    case Str(t) => Str(Truncated(t, STRING_MAX_BYTES))
    case BigInt(t) => Str(Truncated(t, STRING_MAX_BYTES))
    case Null => Null
    case Bool(_) => v
    case Number(_) => v
    case _ => Null
  }

  function SanitizeValue(v: Value, depth: nat, s: State): (Value, State)
    decreases v, 0
  {
    if !Container(v) then (SanitizeLeaf(v), s.Mark(SanitizeLeaf(v) != v))
    else if depth >= MAX_DEPTH then (Str(MAX_DEPTH_TEXT), s.Mark(true))
    else if s.nodesRemaining <= 0 then (Str(TRUNCATED_TEXT), s.Mark(true))
    else
      var s := s.(nodesRemaining := s.nodesRemaining - 1);
      match v
      case Arr(items) =>
        var (r, t) := SanitizeItems(items, MAX_ARRAY_ITEMS, depth + 1, s.Mark(|items| > MAX_ARRAY_ITEMS));
        (Arr(r), t)
      case Obj(entries) =>
        var (r, t) := SanitizeEntries(entries, MAX_KEYS, {}, depth + 1, s.Mark(|entries| > MAX_KEYS));
        (Obj(r), t)
      case Unlistable => (Obj([]), s.Mark(true))
      case Host(_) => (Obj([]), s)
      case BackReference => (Str(CIRCULAR_TEXT), s.Mark(true))
  }

  /** The first `count` items, left to right. */
  function SanitizeItems(items: seq<Value>, count: nat, depth: nat, s: State): (seq<Value>, State)
    decreases items, 0
  {
    if items == [] || count == 0 then ([], s)
    else
      var (first, s1) := SanitizeValue(items[0], depth, s);
      var (rest, s2) := SanitizeItems(items[1..], count - 1, depth, s1);
      ([first] + rest, s2)
  }

  /** The first `count` entries; `taken` are the keys already in the result. */
  function SanitizeEntries(entries: seq<Entry>, count: nat, taken: set<Text>, depth: nat, s: State)
    : (seq<Entry>, State)
    decreases entries, 0
  {
    if entries == [] || count == 0 then ([], s)
    else
      var key := Truncated(entries[0].key, KEY_MAX_BYTES);
      if key == [] || Forbidden(key) || key in taken then
        SanitizeEntries(entries[1..], count - 1, taken, depth, s.Mark(true))
      else
        var (value, s1) := SanitizeValue(entries[0].value, depth, s.Mark(key != entries[0].key));
        var (rest, s2) := SanitizeEntries(entries[1..], count - 1, taken + {key}, depth, s1);
        ([Entry(key, value)] + rest, s2)
  }

  /** JSON.stringify length; only JSON data and host objects reach it. */
  function SerializedLength(v: Value): nat
    decreases v, 0
  {
    match v
    case Bool(b) => if b then 4 else 5
    case Number(digits) => Utf8Length(digits)
    case Str(t) => JsonLength(t)
    case Arr(items) => if items == [] then 2 else 1 + ItemsLength(items)
    case Obj(entries) => ObjectLength(entries)
    case Host(n) => n
    case _ => 4
  }

  /** Each item with the comma or bracket after it. */
  function ItemsLength(items: seq<Value>): nat
    decreases items, 0
  {
    if items == [] then 0 else SerializedLength(items[0]) + 1 + ItemsLength(items[1..])
  }

  /** Each entry with its colon and the comma or brace after it. */
  function EntriesLength(entries: seq<Entry>): nat
    decreases entries, 0
  {
    if entries == [] then 0
    else JsonLength(entries[0].key) + 1 + SerializedLength(entries[0].value) + 1 + EntriesLength(entries[1..])
  }

  function ObjectLength(entries: seq<Entry>): nat
    decreases entries, 1
  {
    if entries == [] then 2 else 1 + EntriesLength(entries)
  }

  /** Copy entries while the object so far still fits; the flag reports that one did not. */
  function Fit(entries: seq<Entry>, bounded: seq<Entry>): (seq<Entry>, bool) {
    if entries == [] then (bounded, false)
    else if ObjectLength(bounded + [entries[0]]) <= METADATA_MAX_BYTES then
      Fit(entries[1..], bounded + [entries[0]])
    else (Fit(entries[1..], bounded).0, true)
  }

  /** Assigning to a key overwrites it in place, or appends it. */
  function WithEntry(entries: seq<Entry>, e: Entry): seq<Entry> {
    if entries == [] then [e]
    else if entries[0].key == e.key then [e] + entries[1..]
    else [entries[0]] + WithEntry(entries[1..], e)
  }

  const FLAGGED := Entry(FLAG, Bool(true))

  function WithFlag(entries: seq<Entry>): seq<Entry> { WithEntry(entries, FLAGGED) }

  predicate NeedsTrim(bounded: seq<Entry>) {
    |bounded| >= MAX_KEYS || ObjectLength(WithFlag(bounded)) > METADATA_MAX_BYTES
  }

  /** Drop last entries while the test asks for it. */
  function TrimWhile(test: seq<Entry> -> bool, bounded: seq<Entry>): seq<Entry> {
    if test(bounded) && bounded != [] then TrimWhile(test, bounded[..|bounded| - 1]) else bounded
  }

  function TrimTest(): seq<Entry> -> bool {
    bounded => NeedsTrim(bounded)
  }

  function Trim(bounded: seq<Entry>): seq<Entry> { TrimWhile(TrimTest(), bounded) }

  function Bound(entries: seq<Entry>, truncated: bool): Value {
    var (bounded, dropped) := Fit(entries, []);
    Obj(if truncated || dropped then WithFlag(Trim(bounded)) else bounded)
  }

  /** The sanitizer: `null` and `undefined` pass through, anything else becomes a bounded object. */
  function Sanitize(metadata: Value): Value {
    if metadata.Null? || metadata.Undefined? then metadata
    else
      var (v, s) := SanitizeValue(metadata, 0, State(MAX_NODES, false));
      if v.Obj? then Bound(v.entries, s.truncated) else Obj([FLAGGED])
  }

  // ---- The validator ---------------------------------------------------------

  /** The node count after a valid value, or nothing for an invalid one. */
  function Check(v: Value, depth: nat, nodes: nat): Option<nat>
    decreases v, 0
  {
    match v
    case Null => Some(nodes)
    case Bool(_) => Some(nodes)
    case Str(t) => if Utf8Length(t) <= STRING_MAX_BYTES then Some(nodes) else None
    case Number(_) => Some(nodes)
    case Arr(items) =>
      if depth >= MAX_DEPTH || nodes + 1 > MAX_NODES || |items| > MAX_ARRAY_ITEMS then None
      else CheckItems(items, depth + 1, nodes + 1)
    case Obj(entries) =>
      if depth >= MAX_DEPTH || nodes + 1 > MAX_NODES || |entries| > MAX_KEYS then None
      else CheckEntries(entries, depth + 1, nodes + 1)
    case Host(_) => if depth >= MAX_DEPTH || nodes + 1 > MAX_NODES then None else Some(nodes + 1)
    case _ => None
  }

  function CheckItems(items: seq<Value>, depth: nat, nodes: nat): Option<nat>
    decreases items, 0
  {
    if items == [] then Some(nodes)
    else
      var first := Check(items[0], depth, nodes);
      if first.None? then None else CheckItems(items[1..], depth, first.value)
  }

  predicate KeyAllowed(key: Text) {
    key != [] && !Forbidden(key) && Utf8Length(key) <= KEY_MAX_BYTES
  }

  function CheckEntries(entries: seq<Entry>, depth: nat, nodes: nat): Option<nat>
    decreases entries, 0
  {
    if entries == [] then Some(nodes)
    else if !KeyAllowed(entries[0].key) then None
    else
      var first := Check(entries[0].value, depth, nodes);
      if first.None? then None else CheckEntries(entries[1..], depth, first.value)
  }

  /** `isBoundedAuditMetadata`. */
  predicate Accepts(v: Value) {
    (v.Obj? || v.Host?) && SerializedLength(v) <= METADATA_MAX_BYTES && Check(v, 0, 0).Some?
  }

  // ---- What the budgets mean -------------------------------------------------

  /** The number of arrays and objects in a value. */
  function Nodes(v: Value): nat {
    match v
    case Arr(items) => 1 + ItemNodes(items)
    case Obj(entries) => 1 + EntryNodes(entries)
    case Host(_) => 1
    case _ => 0
  }

  function ItemNodes(items: seq<Value>): nat {
    if items == [] then 0 else Nodes(items[0]) + ItemNodes(items[1..])
  }

  function EntryNodes(entries: seq<Entry>): nat {
    if entries == [] then 0 else Nodes(entries[0].value) + EntryNodes(entries[1..])
  }

  /** Data within the size limits of every level, `depth` levels down. */
  predicate Bounded(v: Value, depth: nat) {
    match v
    case Str(t) => Utf8Length(t) <= STRING_MAX_BYTES
    case Arr(items) =>
      depth < MAX_DEPTH && |items| <= MAX_ARRAY_ITEMS && forall x :: x in items ==> Bounded(x, depth + 1)
    case Obj(entries) =>
      depth < MAX_DEPTH && |entries| <= MAX_KEYS && forall e :: e in entries ==> EntryBounded(e, depth + 1)
    case Host(_) => depth < MAX_DEPTH
    case _ => v.Null? || v.Bool? || v.Number?
  }

  predicate EntryBounded(e: Entry, depth: nat) {
    KeyAllowed(e.key) && Bounded(e.value, depth)
  }

  predicate DistinctKeys(entries: seq<Entry>) {
    forall i, j :: 0 <= i < j < |entries| ==> entries[i].key != entries[j].key
  }

  /** Objects have distinct keys at every level. */
  predicate WellFormed(v: Value) {
    match v
    case Arr(items) => forall x :: x in items ==> WellFormed(x)
    case Obj(entries) => DistinctKeys(entries) && forall e :: e in entries ==> EntryWellFormed(e)
    case _ => true
  }

  predicate EntryWellFormed(e: Entry) {
    WellFormed(e.value)
  }

  /** No host object at any level. */
  predicate HostFree(v: Value) {
    match v
    case Arr(items) => forall x :: x in items ==> HostFree(x)
    case Obj(entries) => forall e :: e in entries ==> EntryHostFree(e)
    case Host(_) => false
    case _ => true
  }

  predicate EntryHostFree(e: Entry) {
    HostFree(e.value)
  }

  predicate ItemsBounded(items: seq<Value>, depth: nat) {
    forall x :: x in items ==> Bounded(x, depth)
  }

  predicate EntriesBounded(entries: seq<Entry>, depth: nat) {
    forall e :: e in entries ==> EntryBounded(e, depth)
  }

  lemma ItemsBoundedStep(items: seq<Value>, depth: nat)
    requires items != []
    ensures ItemsBounded(items, depth) <==> Bounded(items[0], depth) && ItemsBounded(items[1..], depth)
  {
    assert items == [items[0]] + items[1..];
  }

  lemma EntriesBoundedStep(entries: seq<Entry>, depth: nat)
    requires entries != []
    ensures EntriesBounded(entries, depth) <==> EntryBounded(entries[0], depth) && EntriesBounded(entries[1..], depth)
  {
    assert entries == [entries[0]] + entries[1..];
  }

  /** The same, one after the other. */
  predicate ItemsBoundedInTurn(items: seq<Value>, depth: nat) {
    items == [] || (Bounded(items[0], depth) && ItemsBoundedInTurn(items[1..], depth))
  }

  lemma {:induction false} ItemsEitherWay(items: seq<Value>, depth: nat)
    ensures ItemsBounded(items, depth) <==> ItemsBoundedInTurn(items, depth)
  {
    if items != [] {
      ItemsBoundedStep(items, depth);
      ItemsEitherWay(items[1..], depth);
    }
  }

  predicate EntriesBoundedInTurn(entries: seq<Entry>, depth: nat) {
    entries == [] || (EntryBounded(entries[0], depth) && EntriesBoundedInTurn(entries[1..], depth))
  }

  lemma {:induction false} EntriesEitherWay(entries: seq<Entry>, depth: nat)
    ensures EntriesBounded(entries, depth) <==> EntriesBoundedInTurn(entries, depth)
  {
    if entries != [] {
      EntriesBoundedStep(entries, depth);
      EntriesEitherWay(entries[1..], depth);
    }
  }

  /** The validator's traversal decides size limits at every level and the total node budget. */
  lemma {:induction false} CheckMeaning(v: Value, depth: nat, nodes: nat)
    requires nodes <= MAX_NODES
    ensures Check(v, depth, nodes) ==
            if Bounded(v, depth) && nodes + Nodes(v) <= MAX_NODES then Some(nodes + Nodes(v)) else None
    decreases v, 0
  {
    match v {
      case Arr(items) =>
        if depth < MAX_DEPTH && nodes + 1 <= MAX_NODES {
          CheckItemsMeaning(items, depth + 1, nodes + 1);
          ItemsEitherWay(items, depth + 1);
        }
      case Obj(entries) =>
        if depth < MAX_DEPTH && nodes + 1 <= MAX_NODES {
          CheckEntriesMeaning(entries, depth + 1, nodes + 1);
          EntriesEitherWay(entries, depth + 1);
        }
      case _ =>
    }
  }

  lemma FirstItemChecked(items: seq<Value>, depth: nat, nodes: nat)
    requires items != [] && Check(items[0], depth, nodes).Some?
    ensures CheckItems(items, depth, nodes) == CheckItems(items[1..], depth, Check(items[0], depth, nodes).value)
  {
  }

  lemma FirstItemRefused(items: seq<Value>, depth: nat, nodes: nat)
    requires items != [] && Check(items[0], depth, nodes).None?
    ensures CheckItems(items, depth, nodes).None?
  {
  }

  lemma {:induction false} CheckItemsMeaning(items: seq<Value>, depth: nat, nodes: nat)
    requires nodes <= MAX_NODES
    ensures CheckItems(items, depth, nodes) ==
            if ItemsBoundedInTurn(items, depth) && nodes + ItemNodes(items) <= MAX_NODES
            then Some(nodes + ItemNodes(items)) else None
    decreases items, 0
  {
    if items != [] {
      var value, rest := items[0], items[1..];
      CheckMeaning(value, depth, nodes);
      if Bounded(value, depth) && nodes + Nodes(value) <= MAX_NODES {
        CheckItemsMeaning(rest, depth, nodes + Nodes(value));
        FirstItemChecked(items, depth, nodes);
      } else {
        FirstItemRefused(items, depth, nodes);
      }
    }
  }

  lemma FirstEntryChecked(entries: seq<Entry>, depth: nat, nodes: nat)
    requires entries != [] && KeyAllowed(entries[0].key) && Check(entries[0].value, depth, nodes).Some?
    ensures CheckEntries(entries, depth, nodes)
         == CheckEntries(entries[1..], depth, Check(entries[0].value, depth, nodes).value)
  {
  }

  lemma FirstEntryRefused(entries: seq<Entry>, depth: nat, nodes: nat)
    requires entries != [] && (!KeyAllowed(entries[0].key) || Check(entries[0].value, depth, nodes).None?)
    ensures CheckEntries(entries, depth, nodes).None?
  {
  }

  lemma {:induction false} CheckEntriesMeaning(entries: seq<Entry>, depth: nat, nodes: nat)
    requires nodes <= MAX_NODES
    ensures CheckEntries(entries, depth, nodes) ==
            if EntriesBoundedInTurn(entries, depth) && nodes + EntryNodes(entries) <= MAX_NODES
            then Some(nodes + EntryNodes(entries)) else None
    decreases entries, 0
  {
    if entries != [] {
      var value, rest := entries[0].value, entries[1..];
      CheckMeaning(value, depth, nodes);
      if EntryBounded(entries[0], depth) && nodes + Nodes(value) <= MAX_NODES {
        CheckEntriesMeaning(rest, depth, nodes + Nodes(value));
        FirstEntryChecked(entries, depth, nodes);
      } else {
        FirstEntryRefused(entries, depth, nodes);
      }
    }
  }
}
