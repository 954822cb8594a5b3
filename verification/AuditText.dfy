/**
 Strings as the audit sanitizer measures them (src/security/audit-sanitize.ts): sequences of code
 points, lone surrogates included, with their length in UTF-8 and inside a JSON string.
 */
module AuditText {
  type CodePoint = c: int | 0 <= c < 0x11_0000
  type Text = seq<CodePoint>

  predicate Surrogate(c: CodePoint) {
    0xD800 <= c <= 0xDFFF
  }

  /** Bytes in UTF-8; a lone surrogate is encoded as the three-byte replacement character. */
  function Utf8Bytes(c: CodePoint): (n: nat)
    ensures 1 <= n <= 4
  {
    if c < 0x80 then 1 else if c < 0x800 then 2 else if c < 0x1_0000 then 3 else 4
  }

  /** Bytes in JSON.stringify output: short escapes, \u00XX for controls, \uDXXX for surrogates. */
  function JsonBytes(c: CodePoint): (n: nat)
    ensures 1 <= n <= 6
  {
    if c == 0x22 || c == 0x5C || 0x08 <= c <= 0x0A || 0x0C <= c <= 0x0D then 2
    else if c < 0x20 || Surrogate(c) then 6
    else Utf8Bytes(c)
  }

  function Utf8Length(t: Text): (n: nat)
    ensures n <= 4 * |t|
  {
    if t == [] then 0 else Utf8Bytes(t[0]) + Utf8Length(t[1..])
  }

  /** With the surrounding quotes. */
  function JsonLength(t: Text): (n: nat)
    ensures 2 <= n <= 2 + 6 * |t|
  {
    if t == [] then 2 else JsonBytes(t[0]) + JsonLength(t[1..])
  }

  function Ascii(s: string): (t: Text)
    requires forall i :: 0 <= i < |s| ==> s[i] as int < 128
    ensures |t| == |s|
  {
    seq(|s|, i requires 0 <= i < |s| => s[i] as int)
  }

  /** The longest prefix of at most `limit` bytes. */
  function Truncated(t: Text, limit: int): Text {
    if t == [] || Utf8Bytes(t[0]) > limit then []
    else [t[0]] + Truncated(t[1..], limit - Utf8Bytes(t[0]))
  }

  lemma {:induction false} TruncatedFits(t: Text, limit: nat)
    ensures Utf8Length(Truncated(t, limit)) <= limit
    ensures Utf8Length(t) <= limit <==> Truncated(t, limit) == t
  {
    if t != [] && Utf8Bytes(t[0]) <= limit {
      TruncatedFits(t[1..], limit - Utf8Bytes(t[0]));
      assert Truncated(t, limit)[1..] == Truncated(t[1..], limit - Utf8Bytes(t[0]));
      assert t == [t[0]] + t[1..];
    }
  }

  lemma {:induction false} LengthSnoc(t: Text, c: CodePoint)
    ensures Utf8Length(t + [c]) == Utf8Length(t) + Utf8Bytes(c)
  {
    if t == [] {
      assert t + [c] == [c];
    } else {
      LengthSnoc(t[1..], c);
      assert (t + [c])[1..] == t[1..] + [c];
    }
  }

  /** Truncation is by whole code points and maximal: one more would not fit. */
  lemma {:induction false} TruncatedIsLongest(t: Text, limit: nat)
    ensures var n := |Truncated(t, limit)|;
            && n <= |t| && Truncated(t, limit) == t[..n]
            && (n < |t| ==> Utf8Length(t[..n + 1]) > limit)
  {
    if t != [] && Utf8Bytes(t[0]) <= limit {
      var rest := limit - Utf8Bytes(t[0]);
      TruncatedIsLongest(t[1..], rest);
      var n := |Truncated(t[1..], rest)|;
      assert t[..n + 1] == [t[0]] + t[1..][..n];
      if n < |t[1..]| {
        assert t[..n + 2][1..] == t[1..][..n + 1];
      }
    } else if t != [] {
      assert t[..1][1..] == [];
      assert Utf8Length(t[..1]) == Utf8Bytes(t[0]);
    }
  }

  lemma {:induction false} TruncatedFrom(t: Text, limit: nat, i: nat, bytes: nat)
    requires i < |t| && bytes == Utf8Length(t[..i]) <= limit
    ensures Truncated(t, limit) == t[..i] + Truncated(t[i..], limit - bytes)
  {
    if i > 0 {
      assert t[..i][1..] == t[1..][..i - 1];
      TruncatedFrom(t[1..], limit - Utf8Bytes(t[0]), i - 1, bytes - Utf8Bytes(t[0]));
      assert t[1..][i - 1..] == t[i..];
      assert t[..i] == [t[0]] + t[1..][..i - 1];
    }
  }

  /** The source's loop: return the value if it fits, else copy code points until the next would not. */
  method TruncateUtf8(value: Text, maximumBytes: nat) returns (output: Text)
    ensures output == Truncated(value, maximumBytes)
  {
    TruncatedFits(value, maximumBytes);
    if Utf8Length(value) <= maximumBytes {
      return value;
    }
    assert value[..|value|] == value;
    output := [];
    var bytes, i := 0, 0;
    while i < |value|
      invariant 0 <= i <= |value|
      invariant output == value[..i] && bytes == Utf8Length(output) <= maximumBytes
    {
      var characterBytes := Utf8Bytes(value[i]);
      if bytes + characterBytes > maximumBytes {
        TruncatedFrom(value, maximumBytes, i, bytes);
        return;
      }
      LengthSnoc(output, value[i]);
      output := output + [value[i]];
      bytes := bytes + characterBytes;
      i := i + 1;
    }
  }
}
