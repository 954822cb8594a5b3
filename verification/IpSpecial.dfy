/**
 The special-use ranges in the notation of the registries, octet by octet and word by word, and what
 brackets, letter case and zones of an address text mean (src/oauth/client-id-metadata.ts).
 */
module IpSpecial {
  import opened Wrappers
  import opened IpText
  import opened IpParse
  import opened IpPrint
  import opened IpAddress
  import opened IpRanges

  // ---- IPv4, octet by octet ------------------------------------------------------------

  predicate Octets(a: nat, b: nat, c: nat, d: nat) { a < 256 && b < 256 && c < 256 && d < 256 }

  function OctetValue(a: nat, b: nat, c: nat, d: nat): nat {
    a * 0x100_0000 + b * 0x1_0000 + c * 0x100 + d
  }

  /** The i-th registered block, in dotted notation. */
  predicate QuadIn(a: nat, b: nat, c: nat, i: nat)
    requires i < 14
  {
    match i
    case 0 => a == 0
    case 1 => a == 10
    case 2 => a == 100 && 64 <= b < 128
    case 3 => a == 127
    case 4 => a == 169 && b == 254
    case 5 => a == 172 && 16 <= b < 32
    case 6 => a == 192 && b == 0 && c == 0
    case 7 => a == 192 && b == 0 && c == 2
    case 8 => a == 192 && b == 168
    case 9 => a == 198 && 18 <= b < 20
    case 10 => a == 198 && b == 51 && c == 100
    case 11 => a == 203 && b == 0 && c == 113
    case 12 => 224 <= a < 240
    case 13 => 240 <= a
  }

  predicate SpecialQuad(a: nat, b: nat, c: nat) {
    exists i | 0 <= i < 14 :: QuadIn(a, b, c, i)
  }

  lemma Sizes4(i: nat)
    requires i < |SPECIAL_IPV4_RANGES|
    ensures SPECIAL_IPV4_RANGES[i].Valid()
    ensures Pow2(32 - SPECIAL_IPV4_RANGES[i].prefix) ==
            [0x100_0000, 0x100_0000, 0x40_0000, 0x100_0000, 0x1_0000, 0x10_0000, 0x100, 0x100, 0x1_0000,
             0x2_0000, 0x100, 0x100, 0x1000_0000, 0x1000_0000][i]
  {
    Powers();
    SizesIpv4();
  }

  lemma EarlyBlock(a: nat, b: nat, c: nat, d: nat, i: nat)
    requires Octets(a, b, c, d) && i < 7
    ensures SPECIAL_IPV4_RANGES[i].Valid()
    ensures Within4(OctetValue(a, b, c, d), SPECIAL_IPV4_RANGES[i]) <==> QuadIn(a, b, c, i)
  {
    Sizes4(i);
  }

  lemma LateBlock(a: nat, b: nat, c: nat, d: nat, i: nat)
    requires Octets(a, b, c, d) && 7 <= i < 14
    ensures SPECIAL_IPV4_RANGES[i].Valid()
    ensures Within4(OctetValue(a, b, c, d), SPECIAL_IPV4_RANGES[i]) <==> QuadIn(a, b, c, i)
  {
    Sizes4(i);
  }

  lemma BlocksAreExact(a: nat, b: nat, c: nat, d: nat)
    requires Octets(a, b, c, d)
    ensures OutsideAll4(OctetValue(a, b, c, d)) <==> !SpecialQuad(a, b, c)
  {
    var n := OctetValue(a, b, c, d);
    assert |SPECIAL_IPV4_RANGES| == 14;
    forall i: nat | i < 14
      ensures SPECIAL_IPV4_RANGES[i].Valid() && (Within4(n, SPECIAL_IPV4_RANGES[i]) <==> QuadIn(a, b, c, i))
    {
      if i < 7 {
        EarlyBlock(a, b, c, d, i);
      } else {
        LateBlock(a, b, c, d, i);
      }
    }
    assert forall i :: 0 <= i < 14 ==> SPECIAL_IPV4_RANGES[i] in SPECIAL_IPV4_RANGES;
  }

  /** A dotted quad is public exactly when it is in none of the registered blocks. */
  lemma QuadIsPublic(q: Quad)
    requires q.Legal()
    ensures IsPublicInternetAddress(q.Text()) <==>
              !SpecialQuad(Numeral(q.a, 10), Numeral(q.b, 10), Numeral(q.c, 10))
  {
    var n := q.Value();
    Ipv4Exact(q.Text(), n);
    NeverBoth(q.Text());
    Classification(q.Text());
    BlocksAreExact(Numeral(q.a, 10), Numeral(q.b, 10), Numeral(q.c, 10), Numeral(q.d, 10));
  }

  // ---- IPv6, word by word --------------------------------------------------------------

  predicate EightWords(ws: seq<nat>) { |ws| == 8 && AllWord16(ws) }

  /** The i-th registered block, word by word. */
  predicate WordsIn(ws: seq<nat>, i: nat)
    requires EightWords(ws) && i < 12
  {
    match i
    case 0 => ws == [0, 0, 0, 0, 0, 0, 0, 0]
    case 1 => ws == [0, 0, 0, 0, 0, 0, 0, 1]
    case 2 => ws[..6] == [0, 0, 0, 0, 0, 0xffff]
    case 3 => ws[..6] == [0x64, 0xff9b, 0, 0, 0, 0]
    case 4 => ws[..3] == [0x64, 0xff9b, 1]
    case 5 => ws[..4] == [0x100, 0, 0, 0]
    case 6 => ws[0] == 0x2001 && ws[1] < 0x200
    case 7 => ws[0] == 0x2001 && ws[1] == 0xdb8
    case 8 => ws[0] == 0x2002
    case 9 => 0xfc00 <= ws[0] < 0xfe00
    case 10 => 0xfe80 <= ws[0] < 0xfec0
    case 11 => 0xff00 <= ws[0]
  }

  predicate SpecialWords(ws: seq<nat>)
    requires EightWords(ws)
  {
    exists i | 0 <= i < 12 :: WordsIn(ws, i)
  }

  lemma MoreDigits(h: nat, p: nat, upper: nat, w: nat)
    requires upper < p && w < 0x1_0000
    ensures upper * 0x1_0000 + w < p * 0x1_0000
    ensures (h * p + upper) * 0x1_0000 + w == h * (p * 0x1_0000) + (upper * 0x1_0000 + w)
  {
    assert h * p * 0x1_0000 == h * (p * 0x1_0000);
  }

  /** The words after the first `m` are a remainder. */
  lemma {:induction false} ValueSplits(ws: seq<nat>, m: nat) returns (low: nat)
    requires AllWord16(ws) && m <= |ws|
    ensures low < Pow2(16 * (|ws| - m)) && OfWords(ws) == OfWords(ws[..m]) * Pow2(16 * (|ws| - m)) + low
    decreases |ws|
  {
    if m == |ws| {
      assert ws[..m] == ws;
      low := 0;
    } else {
      var n := |ws| - 1;
      var upper := ValueSplits(ws[..n], m);
      assert ws[..n][..m] == ws[..m];
      low := upper * 0x1_0000 + ws[n];
      assert Pow2(16 * (|ws| - m)) == Pow2(16 * (n - m)) * 0x1_0000 by {
        Powers();
        Pow2Grows(16, 16 * (|ws| - m));
      }
      MoreDigits(OfWords(ws[..m]), Pow2(16 * (n - m)), upper, ws[n]);
    }
  }

  /** Comparing with multiples of `p` compares quotients. */
  lemma Quotients(h: nat, low: nat, p: nat, base: nat, size: nat)
    requires low < p
    ensures base * p <= h * p + low < base * p + size * p <==> base <= h < base + size
  {
    if base <= h < base + size {
      assert base * p <= h * p && (h + 1) * p <= (base + size) * p;
    } else if h < base {
      assert (h + 1) * p <= base * p;
    } else {
      assert (base + size) * p <= h * p;
      assert (base + size) * p == base * p + size * p;
    }
  }

  lemma QuotientsOf(v: nat, bv: nat, total: nat, h: nat, low: nat, p: nat, base: nat, size: nat)
    requires low < p && v == h * p + low && bv == base * p && total == size * p
    ensures bv <= v < bv + total <==> base <= h < base + size
  {
    Quotients(h, low, p, base, size);
  }

  lemma LastWords(h: nat, x: nat, g: nat, w: nat, size: nat)
    requires x < 0x1_0000 && w + size <= 0x1_0000
    ensures g * 0x1_0000 + w <= h * 0x1_0000 + x < g * 0x1_0000 + w + size <==> h == g && w <= x < w + size
  {
  }

  /** The first `m` words as a number are in the block exactly when the words match. */
  lemma HeadIsPrefix(ws: seq<nat>, bw: seq<nat>, m: nat, size: nat)
    requires EightWords(ws) && EightWords(bw) && 1 <= m <= 8 && bw[m - 1] + size <= 0x1_0000
    ensures OfWords(bw[..m]) <= OfWords(ws[..m]) < OfWords(bw[..m]) + size <==>
              ws[..m - 1] == bw[..m - 1] && bw[m - 1] <= ws[m - 1] < bw[m - 1] + size
  {
    var us, vs := ws[..m - 1], bw[..m - 1];
    OfWordsStep(ws, m - 1);
    OfWordsStep(bw, m - 1);
    LastWords(OfWords(us), ws[m - 1], OfWords(vs), bw[m - 1], size);
    if OfWords(us) == OfWords(vs) {
      WordsAreRecovered(us, vs);
    }
  }

  lemma TailSplit(ws: seq<nat>, m: nat) returns (low: nat, p: nat)
    requires EightWords(ws) && m <= 8
    ensures p == Pow2(16 * (8 - m)) && low < p && OfWords(ws) == OfWords(ws[..m]) * p + low
  {
    low := ValueSplits(ws, m);
    p := Pow2(16 * (8 - m));
  }

  lemma TailBlock(bw: seq<nat>, m: nat, k: nat, p: nat) returns (total: nat)
    requires EightWords(bw) && m <= 8 && (forall i :: m <= i < 8 ==> bw[i] == 0) && p == Pow2(16 * (8 - m))
    ensures OfWords(bw) == OfWords(bw[..m]) * p && total == Pow2(k + 16 * (8 - m)) == Pow2(k) * p
  {
    ZeroTail(bw, m);
    total := Pow2(k + 16 * (8 - m));
    Pow2Grows(16 * (8 - m), k + 16 * (8 - m));
  }

  /**
   An interval that starts at the words `bw`, zero after the first `m`, and varies in the last `k`
   bits of the m-th, is the set of addresses with the first m - 1 words and an m-th in the block.
   */
  lemma IntervalIsPrefix(ws: seq<nat>, bw: seq<nat>, m: nat, k: nat)
    requires EightWords(ws) && EightWords(bw) && 1 <= m <= 8 && k <= 16 && bw[m - 1] + Pow2(k) <= 0x1_0000
    requires forall i :: m <= i < 8 ==> bw[i] == 0
    ensures OfWords(bw) <= OfWords(ws) < OfWords(bw) + Pow2(k + 16 * (8 - m)) <==>
              ws[..m - 1] == bw[..m - 1] && bw[m - 1] <= ws[m - 1] < bw[m - 1] + Pow2(k)
  {
    var low, p := TailSplit(ws, m);
    var total := TailBlock(bw, m, k, p);
    QuotientsOf(OfWords(ws), OfWords(bw), total, OfWords(ws[..m]), low, p, OfWords(bw[..m]), Pow2(k));
    HeadIsPrefix(ws, bw, m, Pow2(k));
  }

  lemma RangeIsPrefix(ws: seq<nat>, i: nat, bw: seq<nat>, m: nat, k: nat)
    requires EightWords(ws) && i < |SPECIAL_IPV6_RANGES| && SPECIAL_IPV6_RANGES[i].Valid()
    requires EightWords(bw) && SPECIAL_IPV6_RANGES[i].Words() == bw
    requires 1 <= m <= 8 && k <= 16 && 16 * m - k == SPECIAL_IPV6_RANGES[i].prefix
    requires bw[m - 1] + Pow2(k) <= 0x1_0000 && forall i :: m <= i < 8 ==> bw[i] == 0
    ensures Within6(OfWords(ws), SPECIAL_IPV6_RANGES[i]) <==>
              ws[..m - 1] == bw[..m - 1] && bw[m - 1] <= ws[m - 1] < bw[m - 1] + Pow2(k)
  {
    IntervalIsPrefix(ws, bw, m, k);
    assert k + 16 * (8 - m) == 128 - SPECIAL_IPV6_RANGES[i].prefix;
  }

  lemma BitsAsWords()
    ensures Pow2(0) == 1 && Pow2(6) == 0x40 && Pow2(8) == 0x100 && Pow2(9) == 0x200
  {
    Powers();
    SmallPowers();
  }

  lemma WholeAddress(ws: seq<nat>, i: nat)
    requires EightWords(ws) && i < 2
    ensures SPECIAL_IPV6_RANGES[i].Valid() && (Within6(OfWords(ws), SPECIAL_IPV6_RANGES[i]) <==> WordsIn(ws, i))
  {
    BitsAsWords();
    var bw := [0, 0, 0, 0, 0, 0, 0, i];
    RangeIsPrefix(ws, i, bw, 8, 0);
    assert ws == ws[..7] + [ws[7]] && bw == bw[..7] + [i];
  }

  /** The last of the words that count, and those before it. */
  lemma LastWordApart(ws: seq<nat>, bw: seq<nat>, m: nat)
    requires EightWords(ws) && EightWords(bw) && 1 <= m <= 8
    ensures ws[..m] == bw[..m] <==> ws[..m - 1] == bw[..m - 1] && ws[m - 1] == bw[m - 1]
  {
    assert ws[..m] == ws[..m - 1] + [ws[m - 1]] && bw[..m] == bw[..m - 1] + [bw[m - 1]];
  }

  lemma WholeWords(ws: seq<nat>, i: nat, bw: seq<nat>, m: nat)
    requires EightWords(ws) && i < |SPECIAL_IPV6_RANGES| && SPECIAL_IPV6_RANGES[i].Valid()
    requires EightWords(bw) && SPECIAL_IPV6_RANGES[i].Words() == bw
    requires 1 <= m <= 8 && 16 * m == SPECIAL_IPV6_RANGES[i].prefix && forall i :: m <= i < 8 ==> bw[i] == 0
    ensures Within6(OfWords(ws), SPECIAL_IPV6_RANGES[i]) <==> ws[..m] == bw[..m]
  {
    BitsAsWords();
    RangeIsPrefix(ws, i, bw, m, 0);
    LastWordApart(ws, bw, m);
  }

  lemma MappedWords(ws: seq<nat>)
    requires EightWords(ws)
    ensures SPECIAL_IPV6_RANGES[2].Valid() && (Within6(OfWords(ws), SPECIAL_IPV6_RANGES[2]) <==> WordsIn(ws, 2))
  {
    var bw := [0, 0, 0, 0, 0, 0xffff, 0, 0];
    WholeWords(ws, 2, bw, 6);
    assert bw[..6] == [0, 0, 0, 0, 0, 0xffff];
  }

  lemma TranslatedWords(ws: seq<nat>)
    requires EightWords(ws)
    ensures SPECIAL_IPV6_RANGES[3].Valid() && (Within6(OfWords(ws), SPECIAL_IPV6_RANGES[3]) <==> WordsIn(ws, 3))
  {
    var bw := [0x64, 0xff9b, 0, 0, 0, 0, 0, 0];
    WholeWords(ws, 3, bw, 6);
    assert bw[..6] == [0x64, 0xff9b, 0, 0, 0, 0];
  }

  lemma LocallyTranslatedWords(ws: seq<nat>)
    requires EightWords(ws)
    ensures SPECIAL_IPV6_RANGES[4].Valid() && (Within6(OfWords(ws), SPECIAL_IPV6_RANGES[4]) <==> WordsIn(ws, 4))
  {
    var bw := [0x64, 0xff9b, 1, 0, 0, 0, 0, 0];
    WholeWords(ws, 4, bw, 3);
    assert bw[..3] == [0x64, 0xff9b, 1];
  }

  lemma DiscardWords(ws: seq<nat>)
    requires EightWords(ws)
    ensures SPECIAL_IPV6_RANGES[5].Valid() && (Within6(OfWords(ws), SPECIAL_IPV6_RANGES[5]) <==> WordsIn(ws, 5))
  {
    var bw := [0x100, 0, 0, 0, 0, 0, 0, 0];
    WholeWords(ws, 5, bw, 4);
    assert bw[..4] == [0x100, 0, 0, 0];
  }

  lemma SecondWord(ws: seq<nat>, i: nat)
    requires EightWords(ws) && 6 <= i < 8
    ensures SPECIAL_IPV6_RANGES[i].Valid() && (Within6(OfWords(ws), SPECIAL_IPV6_RANGES[i]) <==> WordsIn(ws, i))
  {
    BitsAsWords();
    var bw := [0x2001, if i == 6 then 0 else 0xdb8, 0, 0, 0, 0, 0, 0];
    RangeIsPrefix(ws, i, bw, 2, if i == 6 then 9 else 0);
    assert ws[..1] == [ws[0]] && bw[..1] == [0x2001];
  }

  lemma FirstWord(ws: seq<nat>, i: nat)
    requires EightWords(ws) && 8 <= i < 12
    ensures SPECIAL_IPV6_RANGES[i].Valid() && (Within6(OfWords(ws), SPECIAL_IPV6_RANGES[i]) <==> WordsIn(ws, i))
  {
    BitsAsWords();
    var bw := [[0x2002, 0xfc00, 0xfe80, 0xff00][i - 8], 0, 0, 0, 0, 0, 0, 0];
    RangeIsPrefix(ws, i, bw, 1, [0, 9, 6, 8][i - 8]);
    assert ws[..0] == bw[..0] == [];
  }

  lemma PrefixIsExact(ws: seq<nat>, i: nat)
    requires EightWords(ws) && i < 12
    ensures |SPECIAL_IPV6_RANGES| == 12 && SPECIAL_IPV6_RANGES[i].Valid()
    ensures Within6(OfWords(ws), SPECIAL_IPV6_RANGES[i]) <==> WordsIn(ws, i)
  {
    if i < 2 {
      WholeAddress(ws, i);
    } else if i == 2 {
      MappedWords(ws);
    } else if i == 3 {
      TranslatedWords(ws);
    } else if i == 4 {
      LocallyTranslatedWords(ws);
    } else if i == 5 {
      DiscardWords(ws);
    } else if i < 8 {
      SecondWord(ws, i);
    } else {
      FirstWord(ws, i);
    }
  }

  lemma PrefixesAreExact(ws: seq<nat>)
    requires EightWords(ws)
    ensures OutsideAll6(OfWords(ws)) <==> !SpecialWords(ws)
  {
    var n := OfWords(ws);
    assert |SPECIAL_IPV6_RANGES| == 12;
    forall i: nat | i < 12
      ensures SPECIAL_IPV6_RANGES[i].Valid() && (Within6(n, SPECIAL_IPV6_RANGES[i]) <==> WordsIn(ws, i))
    {
      PrefixIsExact(ws, i);
    }
    assert forall i :: 0 <= i < 12 ==> SPECIAL_IPV6_RANGES[i] in SPECIAL_IPV6_RANGES;
  }

  /** An IPv6 address, in brackets or not, is public exactly when its words are in none of the registered blocks. */
  lemma WordsArePublic(raw: string, ws: seq<nat>)
    requires EightWords(ws) && Ipv6(Unbracketed(raw)) == Some(OfWords(ws))
    ensures IsPublicInternetAddress(raw) <==> !SpecialWords(ws)
  {
    if Ipv4(raw).Some? {
      NeverBoth(raw);
    } else {
      Classification(raw);
      PrefixesAreExact(ws);
    }
  }

  // ---- Brackets, letter case and zones ---------------------------------------------------

  /** A leading `[` is dropped. */
  lemma OpeningIsDropped(t: string)
    ensures t == "" || t[|t| - 1] != ']' ==> Unbracketed("[" + t) == t
  {
    var raw := "[" + t;
    assert raw[0] == '[' && raw[1..] == t;
  }

  /** A trailing `]` is dropped, with the `[` or without. */
  lemma ClosingIsDropped(t: string)
    ensures Unbracketed("[" + t + "]") == t
    ensures t == "" || t[0] != '[' ==> Unbracketed(t + "]") == t
  {
    var closed := t + "]";
    var raw := "[" + t + "]";
    assert raw[0] == '[' && raw[1..] == closed && closed[..|closed| - 1] == t;
    assert t != "" ==> closed[0] == t[0];
  }

  /** Nothing else is. */
  lemma OthersAreKept(t: string)
    requires t == "" || (t[0] != '[' && t[|t| - 1] != ']')
    ensures Unbracketed(t) == t
  {
  }

  /** The same text but for the case of ASCII letters. */
  predicate SameButCase(a: string, b: string) {
    |a| == |b| && forall i :: 0 <= i < |a| ==> SameLetter(a[i], b[i])
  }

  predicate SameLetter(x: char, y: char) {
    || x == y
    || ('A' <= x <= 'Z' && y as int == x as int + 32)
    || ('A' <= y <= 'Z' && x as int == y as int + 32)
  }

  lemma CaseIsIgnored(a: string, b: string)
    requires SameButCase(a, b)
    ensures Ipv6(a) == Ipv6(b)
  {
    forall i | 0 <= i < |a| ensures Lower(a)[i] == Lower(b)[i] {
      assert SameLetter(a[i], b[i]);
    }
    assert Lower(a) == Lower(b);
  }

  /** Whatever follows a `%` is not read. */
  lemma ZoneIsIgnored(t: string, zone: string)
    requires '%' !in t
    ensures Ipv6(t + "%" + zone) == Ipv6(t)
  {
    var low := Lower(t);
    forall i | 0 <= i < |t| ensures low[i] != '%' {
      assert t[i] in t;
    }
    assert Lower(t + "%" + zone) == low + "%" + Lower(zone);
    SplitFirst(low, Lower(zone), '%');
    SplitWhole(low, '%');
  }

  // ---- Numerals ----------------------------------------------------------------------------

  /** What a digit counts, decimal digits first and then `a` to `f`. */
  function Worth(c: char): int {
    if '0' <= c <= '9' then c as int - 48 else if 'a' <= c <= 'f' then c as int - 87 else -1
  }

  /** The number that up to four digits denote. */
  function Reading(s: string, radix: int): int {
    if |s| == 1 then Worth(s[0])
    else if |s| == 2 then Worth(s[0]) * radix + Worth(s[1])
    else if |s| == 3 then (Worth(s[0]) * radix + Worth(s[1])) * radix + Worth(s[2])
    else if |s| == 4 then ((Worth(s[0]) * radix + Worth(s[1])) * radix + Worth(s[2])) * radix + Worth(s[3])
    else 0
  }

  lemma {:induction false} NumeralIsReading(s: string, radix: nat)
    requires AllHex(s) && |s| <= 4
    ensures Numeral(s, radix) == Reading(s, radix)
    decreases |s|
  {
    if s != "" {
      var shorter := s[..|s| - 1];
      NumeralIsReading(shorter, radix);
      assert IsHexDigit(s[|s| - 1]);
      assert DigitValue(s[|s| - 1]) == Worth(s[|s| - 1]);
    }
  }

  lemma DigitsAreExact(s: string)
    ensures AllDigits(s) <==> forall i :: 0 <= i < |s| ==> 0 <= Worth(s[i]) < 10
    ensures AllHex(s) <==> forall i :: 0 <= i < |s| ==> 0 <= Worth(s[i])
  {
    assert forall i :: 0 <= i < |s| ==> (IsDigit(s[i]) <==> 0 <= Worth(s[i]) < 10);
    assert forall i :: 0 <= i < |s| ==> (IsHexDigit(s[i]) <==> 0 <= Worth(s[i]));
  }

  /** An octet is one to three decimal digits, leading zeros included, that read at most 255 in base ten. */
  lemma OctetIsExact(s: string)
    ensures OctetText(s) <==>
              1 <= |s| <= 3 && (forall i :: 0 <= i < |s| ==> 0 <= Worth(s[i]) < 10) && Reading(s, 10) <= 255
    ensures OctetText(s) ==> Numeral(s, 10) == Reading(s, 10)
  {
    DigitsAreExact(s);
    if |s| <= 3 && AllDigits(s) {
      NumeralIsReading(s, 10);
    }
  }

  /** A piece is one to four lower-case hexadecimal digits, read in base sixteen. */
  lemma HexIsExact(s: string)
    ensures HexText(s) <==> 1 <= |s| <= 4 && forall i :: 0 <= i < |s| ==> 0 <= Worth(s[i])
    ensures HexText(s) ==> Numeral(s, 16) == Reading(s, 16)
  {
    DigitsAreExact(s);
    if HexText(s) {
      NumeralIsReading(s, 16);
    }
  }
}
