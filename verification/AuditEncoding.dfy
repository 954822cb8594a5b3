/**
 The byte counts of the audit sanitizer are the lengths of real texts: UTF-8 as a text encoder writes
 it, and the JSON text that JSON.stringify returns.
 */
module AuditEncoding {
  import opened AuditText
  import opened AuditMetadata

  // ---- UTF-8 -----------------------------------------------------------------------

  /** The bytes of one code point; a lone surrogate is written as U+FFFD. */
  function Utf8(c: CodePoint): (bytes: seq<int>)
    ensures forall i :: 0 <= i < |bytes| ==> 0 <= bytes[i] < 256
  {
    var d: CodePoint := if Surrogate(c) then 0xFFFD else c;
    if d < 0x80 then [d]
    else if d < 0x800 then [0xC0 + d / 64, 0x80 + d % 64]
    else if d < 0x1_0000 then [0xE0 + d / 4096, 0x80 + d / 64 % 64, 0x80 + d % 64]
    else [0xF0 + d / 262144, 0x80 + d / 4096 % 64, 0x80 + d / 64 % 64, 0x80 + d % 64]
  }

  /** Reading the bytes of one code point, by their first. */
  function FromUtf8(bytes: seq<int>): int {
    if |bytes| == 1 then bytes[0]
    else if |bytes| == 2 then (bytes[0] - 0xC0) * 64 + (bytes[1] - 0x80)
    else if |bytes| == 3 then (bytes[0] - 0xE0) * 4096 + (bytes[1] - 0x80) * 64 + (bytes[2] - 0x80)
    else if |bytes| == 4 then
      (bytes[0] - 0xF0) * 262144 + (bytes[1] - 0x80) * 4096 + (bytes[2] - 0x80) * 64 + (bytes[3] - 0x80)
    else -1
  }

  /** Division by 4096 and 262144 in base 64. */
  lemma Base64(d: nat)
    ensures d == d / 64 * 64 + d % 64
    ensures d / 64 == d / 4096 * 64 + d / 64 % 64
    ensures d / 4096 == d / 262144 * 64 + d / 4096 % 64
  {
    var a := d / 64;
    var b := a / 64;
    assert d == a * 64 + d % 64 && a == b * 64 + a % 64;
    assert b == d / 4096;
    assert b / 64 == d / 262144;
  }

  lemma Utf8RoundTripFor(d: CodePoint)
    requires !Surrogate(d)
    ensures |Utf8(d)| == Utf8Bytes(d) && FromUtf8(Utf8(d)) == d
  {
    Base64(d);
  }

  /** Decoding returns the code point, and the number of bytes is the one counted. */
  lemma Utf8RoundTrip(c: CodePoint)
    ensures |Utf8(c)| == Utf8Bytes(c)
    ensures FromUtf8(Utf8(c)) == if Surrogate(c) then 0xFFFD else c
  {
    var d: CodePoint := if Surrogate(c) then 0xFFFD else c;
    assert Utf8(c) == Utf8(d);
    Utf8RoundTripFor(d);
  }

  function Utf8Text(t: Text): seq<int> {
    if t == [] then [] else Utf8(t[0]) + Utf8Text(t[1..])
  }

  lemma {:induction false} Utf8LengthIsExact(t: Text)
    ensures |Utf8Text(t)| == Utf8Length(t)
  {
    if t != [] {
      Utf8RoundTrip(t[0]);
      Utf8LengthIsExact(t[1..]);
    }
  }

  // ---- JSON strings ------------------------------------------------------------------

  const QUOTE: CodePoint := 0x22
  const BACKSLASH: CodePoint := 0x5C

  function HexDigit(d: int): CodePoint
    requires 0 <= d < 16
  {
    if d < 10 then 0x30 + d else 0x61 + d - 10
  }

  /** The letter of a two-character escape, or nothing. */
  function ShortEscape(c: CodePoint): int {
    if c == 0x22 || c == 0x5C then c
    else if c == 0x08 then 0x62
    else if c == 0x09 then 0x74
    else if c == 0x0A then 0x6E
    else if c == 0x0C then 0x66
    else if c == 0x0D then 0x72
    else -1
  }

  /** One character inside a JSON string: short escapes, four hex digits for controls and lone surrogates, or itself. */
  function Escaped(c: CodePoint): Text {
    if ShortEscape(c) >= 0 then [BACKSLASH, ShortEscape(c)]
    else if c < 0x20 || Surrogate(c) then
      [BACKSLASH, 0x75, HexDigit(c / 4096), HexDigit(c / 256 % 16), HexDigit(c / 16 % 16), HexDigit(c % 16)]
    else [c]
  }

  lemma {:induction false} LengthConcat(s: Text, t: Text)
    ensures Utf8Length(s + t) == Utf8Length(s) + Utf8Length(t)
  {
    if s == [] {
      assert s + t == t;
    } else {
      LengthConcat(s[1..], t);
      assert (s + t)[1..] == s[1..] + t;
    }
  }

  lemma {:induction false} AsciiLength(t: Text)
    requires forall i :: 0 <= i < |t| ==> t[i] < 0x80
    ensures Utf8Length(t) == |t|
  {
    if t != [] {
      AsciiLength(t[1..]);
    }
  }

  lemma EscapedLength(c: CodePoint)
    ensures Utf8Length(Escaped(c)) == JsonBytes(c)
  {
    if |Escaped(c)| > 1 {
      AsciiLength(Escaped(c));
    } else {
      assert Escaped(c)[1..] == [];
    }
  }

  function EscapedText(t: Text): Text {
    if t == [] then [] else Escaped(t[0]) + EscapedText(t[1..])
  }

  function Quoted(t: Text): Text { [QUOTE] + EscapedText(t) + [QUOTE] }

  lemma {:induction false} EscapedTextLength(t: Text)
    ensures Utf8Length(EscapedText(t)) + 2 == JsonLength(t)
  {
    if t != [] {
      EscapedLength(t[0]);
      EscapedTextLength(t[1..]);
      LengthConcat(Escaped(t[0]), EscapedText(t[1..]));
    }
  }

  lemma JsonLengthIsExact(t: Text)
    ensures Utf8Length(Quoted(t)) == JsonLength(t)
  {
    EscapedTextLength(t);
    AsciiLength([QUOTE]);
    LengthConcat([QUOTE], EscapedText(t));
    LengthConcat([QUOTE] + EscapedText(t), [QUOTE]);
  }

  // ---- JSON values ---------------------------------------------------------------------

  /** JSON.stringify of data; what cannot be written stands as null. */
  function Stringify(v: Value): Text
    decreases v, 0
  {
    match v
    case Bool(b) => if b then Ascii("true") else Ascii("false")
    case Number(digits) => digits
    case Str(t) => Quoted(t)
    case Arr(items) => Ascii("[") + Listed(items) + Ascii("]")
    case Obj(entries) => Ascii("{") + Members(entries) + Ascii("}")
    case _ => Ascii("null")
  }

  /** Items separated by commas. */
  function Listed(items: seq<Value>): Text
    decreases items, 0
  {
    if items == [] then []
    else if |items| == 1 then Stringify(items[0])
    else Stringify(items[0]) + Ascii(",") + Listed(items[1..])
  }

  function Member(e: Entry): Text
    decreases e, 1
  {
    Quoted(e.key) + Ascii(":") + Stringify(e.value)
  }

  function Members(entries: seq<Entry>): Text
    decreases entries, 0
  {
    if entries == [] then []
    else if |entries| == 1 then Member(entries[0])
    else Member(entries[0]) + Ascii(",") + Members(entries[1..])
  }

  lemma Three(a: Text, b: Text, c: Text)
    ensures Utf8Length(a + b + c) == Utf8Length(a) + Utf8Length(b) + Utf8Length(c)
  {
    LengthConcat(a, b);
    LengthConcat(a + b, c);
  }

  lemma Marks()
    ensures Utf8Length(Ascii("[")) == 1 && Utf8Length(Ascii("]")) == 1 && Utf8Length(Ascii("{")) == 1
    ensures Utf8Length(Ascii("}")) == 1 && Utf8Length(Ascii(",")) == 1 && Utf8Length(Ascii(":")) == 1
    ensures Utf8Length(Ascii("null")) == 4 && Utf8Length(Ascii("true")) == 4 && Utf8Length(Ascii("false")) == 5
  {
    AsciiLength(Ascii("["));
    AsciiLength(Ascii("]"));
    AsciiLength(Ascii("{"));
    AsciiLength(Ascii("}"));
    AsciiLength(Ascii(","));
    AsciiLength(Ascii(":"));
    AsciiLength(Ascii("null"));
    AsciiLength(Ascii("true"));
    AsciiLength(Ascii("false"));
  }

  /** The serialized length is the number of bytes of the JSON text. */
  lemma {:induction false} SerializedLengthIsExact(v: Value)
    requires HostFree(v)
    ensures Utf8Length(Stringify(v)) == SerializedLength(v)
    decreases v, 0
  {
    Marks();
    match v {
      case Str(t) => JsonLengthIsExact(t);
      case Arr(items) =>
        ListedLength(items);
        Three(Ascii("["), Listed(items), Ascii("]"));
      case Obj(entries) =>
        MembersLength(entries);
        Three(Ascii("{"), Members(entries), Ascii("}"));
      case _ =>
    }
  }

  lemma {:induction false} ListedLength(items: seq<Value>)
    requires forall x :: x in items ==> HostFree(x)
    ensures Utf8Length(Listed(items)) == if items == [] then 0 else ItemsLength(items) - 1
    decreases items, 0
  {
    if items != [] {
      Marks();
      SerializedLengthIsExact(items[0]);
      ListedLength(items[1..]);
      Three(Stringify(items[0]), Ascii(","), Listed(items[1..]));
    }
  }

  lemma MemberLength(e: Entry)
    requires Utf8Length(Stringify(e.value)) == SerializedLength(e.value)
    ensures Utf8Length(Member(e)) == JsonLength(e.key) + 1 + SerializedLength(e.value)
  {
    Marks();
    JsonLengthIsExact(e.key);
    Three(Quoted(e.key), Ascii(":"), Stringify(e.value));
  }

  lemma {:induction false} MembersLength(entries: seq<Entry>)
    requires forall e :: e in entries ==> EntryHostFree(e)
    ensures Utf8Length(Members(entries)) == if entries == [] then 0 else EntriesLength(entries) - 1
    decreases entries, 0
  {
    if entries != [] {
      Marks();
      assert EntryHostFree(entries[0]);
      SerializedLengthIsExact(entries[0].value);
      MemberLength(entries[0]);
      MembersLength(entries[1..]);
      Three(Member(entries[0]), Ascii(","), Members(entries[1..]));
    }
  }
}
