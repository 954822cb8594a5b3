/**
 Classification of addresses (src/oauth/client-id-metadata.ts, `isPublicInternetAddress`). A
 special-use range keeps its base as a text that every call parses again; here that text is the
 printed form of a number or of eight words.
 */
module IpRanges {
  import opened Wrappers
  import opened IpText
  import opened IpParse
  import opened IpPrint
  import opened IpAddress

  datatype Range4 = Range4(base: nat, prefix: nat) {
    predicate Valid() { base < 0x1_0000_0000 && prefix <= 32 }

    function Text(): string
      requires Valid()
    {
      PrintIpv4(base)
    }
  }

  /** Words written before and after a `::`. */
  datatype Range6 = Range6(left: seq<nat>, right: seq<nat>, prefix: nat) {
    predicate Valid() { |left| + |right| < 8 && AllWord16(left) && AllWord16(right) && prefix <= 128 }

    function Words(): (ws: seq<nat>)
      requires Valid()
      ensures |ws| == 8
    {
      left + Zeros(8 - |left| - |right|) + right
    }

    function Text(): string
      requires Valid()
    {
      PrintIpv6(Words(), |left|, 8 - |right|)
    }
  }

  const SPECIAL_IPV4_RANGES: seq<Range4> := [
    Range4(0x0000_0000, 8),
    Range4(0x0a00_0000, 8),
    Range4(0x6440_0000, 10),
    Range4(0x7f00_0000, 8),
    Range4(0xa9fe_0000, 16),
    Range4(0xac10_0000, 12),
    Range4(0xc000_0000, 24),
    Range4(0xc000_0200, 24),
    Range4(0xc0a8_0000, 16),
    Range4(0xc612_0000, 15),
    Range4(0xc633_6400, 24),
    Range4(0xcb00_7100, 24),
    Range4(0xe000_0000, 4),
    Range4(0xf000_0000, 4)]

  const SPECIAL_IPV6_RANGES: seq<Range6> := [
    Range6([], [], 128),
    Range6([], [0x1], 128),
    Range6([], [0xffff, 0, 0], 96),
    Range6([0x64, 0xff9b], [], 96),
    Range6([0x64, 0xff9b, 0x1], [], 48),
    Range6([0x100], [], 64),
    Range6([0x2001], [], 23),
    Range6([0x2001, 0xdb8], [], 32),
    Range6([0x2002], [], 16),
    Range6([0xfc00], [], 7),
    Range6([0xfe80], [], 10),
    Range6([0xff00], [], 8)]

  predicate InRange4(value: nat, range: Range4) {
    range.Valid() && Ipv4(range.Text()).Some? && Ipv4InCidr(value, Ipv4(range.Text()).value, range.prefix)
  }

  predicate InRange6(value: nat, range: Range6) {
    range.Valid() && Ipv6(range.Text()).Some? && Ipv6InCidr(value, Ipv6(range.Text()).value, range.prefix)
  }

  /** A leading `[` and a trailing `]` are dropped, each on its own. */
  function Unbracketed(raw: string): string {
    var s := if raw != "" && raw[0] == '[' then raw[1..] else raw;
    if s != "" && s[|s| - 1] == ']' then s[..|s| - 1] else s
  }

  predicate IsPublicInternetAddress(raw: string) {
    match Ipv4(raw)
    case Some(n) => forall range :: range in SPECIAL_IPV4_RANGES ==> !InRange4(n, range)
    case None =>
      match Ipv6(Unbracketed(raw))
      case None => false
      case Some(n) => forall range :: range in SPECIAL_IPV6_RANGES ==> !InRange6(n, range)
  }

  // ---- The ranges as integer intervals ------------------------------------------

  predicate Within4(n: nat, range: Range4)
    requires range.Valid()
  {
    range.base <= n < range.base + Pow2(32 - range.prefix)
  }

  predicate Within6(n: nat, range: Range6)
    requires range.Valid()
  {
    OfWords(range.Words()) <= n < OfWords(range.Words()) + Pow2(128 - range.prefix)
  }

  predicate Aligned4(range: Range4) {
    range.Valid() && range.base % Pow2(32 - range.prefix) == 0
  }

  predicate Aligned6(range: Range6) {
    range.Valid() && OfWords(range.Words()) % Pow2(128 - range.prefix) == 0
  }

  lemma SizesIpv4()
    ensures Pow2(22) == 0x40_0000 && Pow2(17) == 0x2_0000
  {
    Powers();
    assert Pow2(17) == 2 * Pow2(16);
    assert Pow2(22) == 2 * Pow2(21) == 4 * Pow2(20);
  }

  lemma FirstAligned4()
    ensures forall i :: 0 <= i < 7 ==> Aligned4(SPECIAL_IPV4_RANGES[i])
  {
    Powers();
    SizesIpv4();
  }

  lemma MiddleAligned4()
    ensures forall i :: 7 <= i < 11 ==> Aligned4(SPECIAL_IPV4_RANGES[i])
  {
    Powers();
    SizesIpv4();
  }

  lemma LastAligned4()
    ensures forall i :: 11 <= i < |SPECIAL_IPV4_RANGES| ==> Aligned4(SPECIAL_IPV4_RANGES[i])
  {
    Powers();
  }

  lemma AllAligned4()
    ensures forall i :: 0 <= i < |SPECIAL_IPV4_RANGES| ==> Aligned4(SPECIAL_IPV4_RANGES[i])
  {
    FirstAligned4();
    MiddleAligned4();
    LastAligned4();
  }

  lemma {:induction false} ZeroTail(ws: seq<nat>, m: nat)
    requires m <= |ws| && forall k :: m <= k < |ws| ==> ws[k] == 0
    ensures OfWords(ws) == OfWords(ws[..m]) * Pow2(16 * (|ws| - m))
    decreases |ws|
  {
    if m == |ws| {
      assert ws[..m] == ws;
    } else {
      var shorter := ws[..|ws| - 1];
      var p := Pow2(16 * (|shorter| - m));
      ZeroTail(shorter, m);
      assert shorter[..m] == ws[..m];
      Powers();
      Pow2Grows(16, 16 * (|ws| - m));
      assert OfWords(ws) == OfWords(ws[..m]) * p * 0x1_0000 == OfWords(ws[..m]) * (p * 0x1_0000);
    }
  }

  /** Below the prefix every bit of the base is zero. */
  predicate ZeroBelowPrefix(range: Range6) {
    && range.Valid() && range.prefix >= 1
    && var m := (range.prefix + 15) / 16;
       && range.Words()[m - 1] % Pow2(16 * m - range.prefix) == 0
       && forall k :: m <= k < 8 ==> range.Words()[k] == 0
  }

  lemma Multiple(q: nat, w: nat, r: nat, p: nat)
    requires r > 0 && p > 0 && w % r == 0 && 0x1_0000 % r == 0
    ensures ((q * 0x1_0000 + w) * p) % (r * p) == 0
  {
    var x := q * (0x1_0000 / r) + w / r;
    assert r * (0x1_0000 / r) == 0x1_0000 && r * (w / r) == w;
    assert q * 0x1_0000 + w == x * r by {
      assert q * 0x1_0000 == q * (r * (0x1_0000 / r)) == q * (0x1_0000 / r) * r;
    }
    assert (q * 0x1_0000 + w) * p == (r * p) * x + 0;
    DivModUnique((q * 0x1_0000 + w) * p, r * p, x, 0);
  }

  lemma PowerDivides(k: nat)
    requires k <= 16
    ensures 0x1_0000 % Pow2(k) == 0
  {
    Powers();
    Pow2Grows(k, 16);
    var a, b := Pow2(k), Pow2(16 - k);
    assert a * b == b * a == 0x1_0000;
    DivModUnique(0x1_0000, a, b, 0);
  }

  lemma AlignedIfZeroBelow(range: Range6)
    requires ZeroBelowPrefix(range)
    ensures Aligned6(range)
  {
    var ws, m := range.Words(), (range.prefix + 15) / 16;
    var k := 16 * m - range.prefix;
    TailedValue(ws, m);
    PowerDivides(k);
    Multiple(OfWords(ws[..m - 1]), ws[m - 1], Pow2(k), Pow2(16 * (8 - m)));
    Pow2Grows(16 * (8 - m), 128 - range.prefix);
    assert 128 - range.prefix - 16 * (8 - m) == k;
  }

  lemma TailedValue(ws: seq<nat>, m: nat)
    requires 0 < m <= |ws| && forall k :: m <= k < |ws| ==> ws[k] == 0
    ensures OfWords(ws) == (OfWords(ws[..m - 1]) * 0x1_0000 + ws[m - 1]) * Pow2(16 * (|ws| - m))
  {
    ZeroTail(ws, m);
    OfWordsStep(ws, m - 1);
  }

  lemma ZeroAfterLeft(range: Range6)
    requires range.Valid() && range.right == [] && 1 <= range.prefix
    requires var m := (range.prefix + 15) / 16;
             |range.left| < m || (|range.left| == m && range.left[m - 1] % Pow2(16 * m - range.prefix) == 0)
    ensures ZeroBelowPrefix(range)
  {
    var m, ws := (range.prefix + 15) / 16, range.Words();
    assert forall k :: |range.left| <= k < 8 ==> ws[k] == 0;
    ZeroModulo(16 * m - range.prefix);
    if |range.left| == m {
      assert ws[m - 1] == range.left[m - 1];
    } else {
      assert ws[m - 1] == 0;
    }
  }

  lemma ZeroModulo(k: nat)
    ensures 0 % Pow2(k) == 0
  {
  }

  lemma ZeroBelow(i: nat)
    requires i < |SPECIAL_IPV6_RANGES|
    ensures ZeroBelowPrefix(SPECIAL_IPV6_RANGES[i])
  {
    if i < 3 {
      FirstZeroBelow(i);
    } else {
      RestZeroBelow(i);
    }
  }

  lemma FirstZeroBelow(i: nat)
    requires i < 3
    ensures ZeroBelowPrefix(SPECIAL_IPV6_RANGES[i])
  {
    Powers();
  }

  lemma RestZeroBelow(i: nat)
    requires 3 <= i < |SPECIAL_IPV6_RANGES|
    ensures ZeroBelowPrefix(SPECIAL_IPV6_RANGES[i])
  {
    Powers();
    SmallPowers();
    ZeroAfterLeft(SPECIAL_IPV6_RANGES[i]);
  }

  lemma AllAligned6()
    ensures forall i :: 0 <= i < |SPECIAL_IPV6_RANGES| ==> Aligned6(SPECIAL_IPV6_RANGES[i])
  {
    forall i | 0 <= i < |SPECIAL_IPV6_RANGES|
      ensures Aligned6(SPECIAL_IPV6_RANGES[i])
    {
      ZeroBelow(i);
      AlignedIfZeroBelow(SPECIAL_IPV6_RANGES[i]);
    }
  }

  lemma SmallPowers()
    ensures Pow2(9) == 0x200 && Pow2(6) == 0x40
  {
  }

  lemma RangeText4(range: Range4)
    requires range.Valid()
    ensures Ipv4(range.Text()) == Some(range.base)
  {
    Ipv4RoundTrip(range.base);
  }

  lemma Interval4(n: nat, base: nat, prefix: nat)
    requires n < 0x1_0000_0000 && base < 0x1_0000_0000 && prefix <= 32 && base % Pow2(32 - prefix) == 0
    ensures Ipv4InCidr(n, base, prefix) <==> base <= n < base + Pow2(32 - prefix)
  {
    Ipv4CidrIsInterval(n, base, prefix);
  }

  lemma RangeIsInterval4(n: nat, range: Range4)
    requires n < 0x1_0000_0000 && Aligned4(range)
    ensures InRange4(n, range) <==> Within4(n, range)
  {
    RangeText4(range);
    Interval4(n, range.base, range.prefix);
  }

  lemma RangeIsInterval6(n: nat, range: Range6)
    requires Aligned6(range)
    ensures InRange6(n, range) <==> Within6(n, range)
  {
    Ipv6RoundTrip(range.Words(), |range.left|, 8 - |range.right|);
    Ipv6CidrIsInterval(n, OfWords(range.Words()), range.prefix);
  }

  ghost predicate OutsideAll4(n: nat) {
    forall range :: range in SPECIAL_IPV4_RANGES && range.Valid() ==> !Within4(n, range)
  }

  ghost predicate OutsideAll6(n: nat) {
    forall range :: range in SPECIAL_IPV6_RANGES && range.Valid() ==> !Within6(n, range)
  }

  /**
   An address is public if and only if it parses, as one of the two kinds, to a number outside every
   special-use interval of that kind.
   */
  lemma Classification(raw: string)
    ensures IsPublicInternetAddress(raw) <==>
      || (Ipv4(raw).Some? && OutsideAll4(Ipv4(raw).value))
      || (Ipv6(Unbracketed(raw)).Some? && OutsideAll6(Ipv6(Unbracketed(raw)).value))
  {
    AllAligned4();
    AllAligned6();
    if Ipv4(raw).Some? {
      NeverBoth(raw);
      QuadOfIsIt(raw);
      var n := Ipv4(raw).value;
      forall range | range in SPECIAL_IPV4_RANGES
        ensures range.Valid() && (InRange4(n, range) <==> Within4(n, range))
      {
        RangeIsInterval4(n, range);
      }
    } else if Ipv6(Unbracketed(raw)).Some? {
      var n := Ipv6(Unbracketed(raw)).value;
      forall range | range in SPECIAL_IPV6_RANGES
        ensures range.Valid() && (InRange6(n, range) <==> Within6(n, range))
      {
        RangeIsInterval6(n, range);
      }
    }
  }

  lemma QuadHasNoBrackets(q: Quad)
    requires q.Legal()
    ensures Unbracketed(q.Text()) == q.Text() && NoGap(q.Text())
  {
  }

  /** No text is both an IPv4 and an IPv6 address. */
  lemma NeverBoth(raw: string)
    requires Ipv4(raw).Some?
    ensures Ipv6(Unbracketed(raw)).None?
  {
    var p := Dotted(QuadOf(raw));
    QuadOfIsIt(raw);
    QuadHasNoBrackets(p.quad);
    PiecePlain(p);
    PlainIsClean(raw);
    QuadHasNoColon(p.quad);
    HalfParses([p]);
    assert Texts([p]) == [raw];
    FullTextParses(raw);
    assert WordsOf([p]) == p.Words() + WordsOf([]);
  }

  lemma {:induction false} ZeroWords(ws: seq<nat>)
    requires forall k :: 0 <= k < |ws| ==> ws[k] == 0
    ensures OfWords(ws) == 0
  {
    if ws != [] {
      ZeroWords(ws[..|ws| - 1]);
    }
  }

  /** The value of five zero words and three more. */
  lemma ThreeLastWords(ws: seq<nat>)
    requires |ws| == 8 && forall k :: 0 <= k < 5 ==> ws[k] == 0
    ensures OfWords(ws) == ws[5] * 0x1_0000_0000 + ws[6] * 0x1_0000 + ws[7]
  {
    ZeroWords(ws[..5]);
    OfWordsStep(ws, 5);
    OfWordsStep(ws, 6);
    OfWordsStep(ws, 7);
    assert ws[..8] == ws;
  }

  lemma MappedIsSpecial(n: nat)
    requires n < 0x1_0000_0000
    ensures !OutsideAll6(0xffff_0000_0000 + n)
  {
    var range := Range6([], [0xffff, 0, 0], 96);
    assert range == SPECIAL_IPV6_RANGES[2];
    MappedRange(range);
    assert Within6(0xffff_0000_0000 + n, range);
  }

  lemma MappedRange(range: Range6)
    requires range == Range6([], [0xffff, 0, 0], 96)
    ensures range.Valid() && OfWords(range.Words()) == 0xffff_0000_0000 && Pow2(128 - range.prefix) == 0x1_0000_0000
  {
    Powers();
    ThreeLastWords(range.Words());
  }

  /** Every IPv4-mapped address is refused, however it is written. */
  lemma MappedIsNotPublic(raw: string, n: nat)
    requires n < 0x1_0000_0000 && Ipv6(Unbracketed(raw)) == Some(0xffff_0000_0000 + n)
    ensures !IsPublicInternetAddress(raw)
  {
    if Ipv4(raw).Some? {
      NeverBoth(raw);
    } else {
      Classification(raw);
      MappedIsSpecial(n);
    }
  }

  /** The pieces `ffff` and a quad, and their three words. */
  lemma MappedPieces(q: Quad) returns (pieces: seq<Piece>)
    requires q.Legal()
    ensures AllLegal(pieces) && Texts(pieces) == ["ffff"] + [q.Text()]
    ensures |WordsOf(pieces)| == 3 && WordsOf(pieces)[0] == 0xffff
    ensures WordsOf(pieces)[1] * 0x1_0000 + WordsOf(pieces)[2] == q.Value() < 0x1_0000_0000
  {
    var mapped, dotted := Hex("ffff"), Dotted(q);
    FourFs();
    FourOctets(q.a, q.b, q.c, q.d);
    Cons(dotted, []);
    assert [dotted] + [] == [dotted] && Texts([]) == [];
    Cons(mapped, [dotted]);
    pieces := [mapped] + [dotted];
  }

  lemma MappedQuadParses(q: Quad)
    requires q.Legal()
    ensures q.Value() < 0x1_0000_0000 && Ipv6("::ffff:" + q.Text()) == Some(0xffff_0000_0000 + q.Value())
  {
    var pieces := MappedPieces(q);
    MappedFormText(pieces, q.Text());
    MappedValue(pieces, q.Value());
    FormReads(Form([], true, pieces), "::ffff:" + q.Text(), 0xffff_0000_0000 + q.Value());
  }

  lemma MappedValue(pieces: seq<Piece>, n: nat)
    requires AllLegal(pieces) && |WordsOf(pieces)| == 3 && WordsOf(pieces)[0] == 0xffff
    requires WordsOf(pieces)[1] * 0x1_0000 + WordsOf(pieces)[2] == n
    ensures Form([], true, pieces).Legal() && Form([], true, pieces).Value() == 0xffff_0000_0000 + n
  {
    ThreeWordForm(pieces);
  }

  lemma FormReads(f: Form, text: string, n: nat)
    requires f.Legal() && f.Text() == text && f.Value() == n
    ensures Ipv6(text) == Some(n)
  {
    TextParses(f);
  }

  /** A form of three words after a `::` that stands for five. */
  lemma ThreeWordForm(pieces: seq<Piece>)
    requires AllLegal(pieces) && |WordsOf(pieces)| == 3
    ensures var f, ws := Form([], true, pieces), WordsOf(pieces);
            f.Legal() && f.Value() == ws[0] * 0x1_0000_0000 + ws[1] * 0x1_0000 + ws[2]
  {
    NothingBefore();
    ThreeAfterZeros(WordsOf([]), WordsOf(pieces));
  }

  lemma ThreeAfterZeros(none: seq<nat>, ws: seq<nat>)
    requires none == [] && |ws| == 3
    ensures OfWords(none + Zeros(5) + ws) == ws[0] * 0x1_0000_0000 + ws[1] * 0x1_0000 + ws[2]
  {
    var all := none + Zeros(5) + ws;
    assert all[5] == ws[0] && all[6] == ws[1] && all[7] == ws[2];
    ThreeLastWords(all);
  }

  lemma NothingBefore()
    ensures AllLegal([]) && WordsOf([]) == [] && Texts([]) == []
  {
  }

  lemma FourFs()
    ensures Numeral("ffff", 16) == 0xffff
  {
    assert "ffff"[..3] == "fff" && "fff"[..2] == "ff" && "ff"[..1] == "f" && "f"[..0] == "";
    assert Numeral("f", 16) == 0xf;
    assert Numeral("ff", 16) == 0xff;
    assert Numeral("fff", 16) == 0xfff;
  }

  lemma MappedFormText(pieces: seq<Piece>, t: string)
    requires Texts(pieces) == ["ffff"] + [t]
    ensures Form([], true, pieces).Text() == "::ffff:" + t
  {
    FormText([], pieces);
    MappedText(t);
  }

  lemma MappedText(t: string)
    ensures Join([], ":") + "::" + Join(["ffff"] + [t], ":") == "::ffff:" + t
  {
  }

  /** In particular `::ffff:a.b.c.d`, with or without brackets. */
  lemma MappedQuadIsNotPublic(q: Quad, raw: string)
    requires q.Legal() && Unbracketed(raw) == "::ffff:" + q.Text()
    ensures !IsPublicInternetAddress(raw)
  {
    MappedQuadParses(q);
    MappedIsNotPublic(raw, q.Value());
  }
}
