/**
 Address classification (src/oauth/client-id-metadata.ts): bit operators of the language, the CIDR
 tests, the IPv6 parser as the program that runs them, and `isPublicInternetAddress`.
 */
module IpAddress {
  import opened Wrappers
  import opened IpText
  import opened IpParse
  import opened IpPrint

  // ---- Bit operators ---------------------------------------------------------

  function Pow2(n: nat): (p: nat)
    ensures p >= 1
  {
    if n == 0 then 1 else 2 * Pow2(n - 1)
  }

  function BitAnd(a: nat, b: nat): nat {
    if a == 0 || b == 0 then 0 else 2 * BitAnd(a / 2, b / 2) + (a % 2) * (b % 2)
  }

  function BitOr(a: nat, b: nat): nat {
    if a == 0 then b else if b == 0 then a
    else 2 * BitOr(a / 2, b / 2) + (if a % 2 == 1 || b % 2 == 1 then 1 else 0)
  }

  /** The signed 32-bit result of a bitwise operator. */
  function ToInt32(n: nat): int {
    var m := n % 0x1_0000_0000;
    if m < 0x8000_0000 then m else m - 0x1_0000_0000
  }

  /** `>>> 0`. */
  function ToUint32(n: int): nat { n % 0x1_0000_0000 }

  /** `<<`: the shift count is taken modulo 32. */
  function ShiftLeft32(n: nat, k: nat): int { ToInt32(n * Pow2(k % 32)) }

  lemma {:induction false} AndOnes(v: nat, n: nat)
    requires v < Pow2(n)
    ensures BitAnd(v, Pow2(n) - 1) == v
    decreases n
  {
    if n > 0 && v > 0 {
      AndOnes(v / 2, n - 1);
      assert (Pow2(n) - 1) / 2 == Pow2(n - 1) - 1;
    }
  }

  lemma ModDouble(v: nat, p: nat)
    requires p > 0
    ensures v % (2 * p) == 2 * ((v / 2) % p) + v % 2
  {
    var q, r := (v / 2) / p, (v / 2) % p;
    assert v == (2 * p) * q + (2 * r + v % 2);
    DivModUnique(v, 2 * p, q, 2 * r + v % 2);
  }

  lemma DivModUnique(v: nat, m: nat, q: nat, r: nat)
    requires r < m && v == m * q + r
    ensures v / m == q && v % m == r
  {
    var q', r' := v / m, v % m;
    assert v == m * q' + r';
    if q' < q {
      TimesLess(m, q', q);
      assert false;
    } else if q < q' {
      TimesLess(m, q, q');
      assert false;
    }
  }

  /** Multiples of a number are at least that number apart. */
  lemma {:induction false} TimesLess(m: nat, x: nat, y: nat)
    requires x < y
    ensures m * x + m <= m * y
    decreases y
  {
    assert m * y == m * (y - 1) + m;
    if x < y - 1 {
      TimesLess(m, x, y - 1);
    }
  }

  lemma {:induction false} AndMask(v: nat, n: nat, k: nat)
    requires k <= n && v < Pow2(n) && Pow2(k) <= Pow2(n)
    ensures BitAnd(v, Pow2(n) - Pow2(k)) == v - v % Pow2(k)
    decreases k
  {
    if k == 0 {
      AndOnes(v, n);
    } else {
      AndMask(v / 2, n - 1, k - 1);
      ModDouble(v, Pow2(k - 1));
      var mask := Pow2(n) - Pow2(k);
      assert mask / 2 == Pow2(n - 1) - Pow2(k - 1) && mask % 2 == 0;
      if mask == 0 {
        assert v % Pow2(k) == v;
      }
    }
  }

  lemma OrEven(y: nat, w: nat)
    ensures BitOr(2 * y, w) == 2 * BitOr(y, w / 2) + w % 2
  {
  }

  lemma TwiceProduct(v: nat, p: nat)
    ensures v * (2 * p) == 2 * (v * p)
  {
  }

  lemma {:induction false} OrAppends(v: nat, w: nat, k: nat)
    requires w < Pow2(k)
    ensures BitOr(v * Pow2(k), w) == v * Pow2(k) + w
    decreases k
  {
    if k > 0 {
      var p := Pow2(k - 1);
      OrAppends(v, w / 2, k - 1);
      TwiceProduct(v, p);
      OrEven(v * p, w);
    }
  }

  // ---- CIDR blocks -----------------------------------------------------------

  function Mask(prefix: nat): nat
    requires prefix <= 32
  {
    if prefix == 0 then 0 else ToUint32(ShiftLeft32(0xffff_ffff, 32 - prefix))
  }

  predicate Ipv4InCidr(value: nat, base: nat, prefix: nat)
    requires prefix <= 32
  {
    ToInt32(BitAnd(value, Mask(prefix))) == ToInt32(BitAnd(base, Mask(prefix)))
  }

  predicate Ipv6InCidr(value: nat, base: nat, prefix: nat)
    requires prefix <= 128
  {
    value / Pow2(128 - prefix) == base / Pow2(128 - prefix)
  }

  lemma {:induction false} Pow2Grows(k: nat, n: nat)
    requires k <= n
    ensures Pow2(k) <= Pow2(n) && Pow2(n) == Pow2(n - k) * Pow2(k)
    decreases n
  {
    if k < n {
      Pow2Grows(k, n - 1);
      assert Pow2(n - k) == 2 * Pow2(n - 1 - k);
    }
  }

  lemma Powers()
    ensures Pow2(0) == 1 && Pow2(4) == 0x10 && Pow2(8) == 0x100 && Pow2(16) == 0x1_0000
    ensures Pow2(20) == 0x10_0000 && Pow2(24) == 0x100_0000 && Pow2(28) == 0x1000_0000 && Pow2(32) == 0x1_0000_0000
  {
  }

  lemma ShiftedOnes(p: nat)
    requires 1 <= p <= 0x1_0000_0000
    ensures (0xffff_ffff * p) % 0x1_0000_0000 == 0x1_0000_0000 - p
  {
  }

  lemma UnsignedOfSigned(n: nat)
    ensures ToUint32(ToInt32(n)) == n % 0x1_0000_0000
  {
  }

  lemma MaskShift(prefix: nat)
    requires 1 <= prefix <= 32
    ensures Mask(prefix) == (0xffff_ffff * Pow2(32 - prefix)) % 0x1_0000_0000
  {
    assert (32 - prefix) % 32 == 32 - prefix;
    UnsignedOfSigned(0xffff_ffff * Pow2(32 - prefix));
  }

  lemma MaskIs(prefix: nat)
    requires prefix <= 32
    ensures 1 <= Pow2(32 - prefix) <= 0x1_0000_0000 && Mask(prefix) == 0x1_0000_0000 - Pow2(32 - prefix)
  {
    Powers();
    var p := Pow2(32 - prefix);
    Pow2Grows(32 - prefix, 32);
    if prefix > 0 {
      MaskShift(prefix);
      ShiftedOnes(p);
    }
  }

  lemma SignedIsInjective(m: nat, n: nat)
    requires m < 0x1_0000_0000 && n < 0x1_0000_0000
    ensures ToInt32(m) == ToInt32(n) <==> m == n
  {
  }

  /** The first address of the block of `size` addresses that holds `base`. */
  function BlockStart(base: nat, size: nat): int
    requires size > 0
  {
    base - base % size
  }

  lemma SameBlock(v: nat, b: nat, m: nat)
    requires m > 0
    ensures BlockStart(v, m) == m * (v / m)
    ensures v / m == b / m <==> BlockStart(b, m) <= v < BlockStart(b, m) + m
    ensures BlockStart(v, m) == BlockStart(b, m) <==> v / m == b / m
  {
    assert v == m * (v / m) + v % m && b == m * (b / m) + b % m;
    if v / m < b / m {
      TimesLess(m, v / m, b / m);
    } else if v / m > b / m {
      TimesLess(m, b / m, v / m);
    }
  }

  lemma Masked(v: nat, prefix: nat)
    requires v < 0x1_0000_0000 && prefix <= 32
    ensures BitAnd(v, Mask(prefix)) == BlockStart(v, Pow2(32 - prefix))
    ensures 0 <= BlockStart(v, Pow2(32 - prefix)) < 0x1_0000_0000
  {
    var k := 32 - prefix;
    MaskIs(prefix);
    Powers();
    AndMask(v, 32, k);
    SameBlock(v, v, Pow2(k));
  }

  /** The 32-bit mask test is membership in an integer interval, with no overflow. */
  lemma Ipv4CidrIsInterval(value: nat, base: nat, prefix: nat)
    requires value < 0x1_0000_0000 && base < 0x1_0000_0000 && prefix <= 32
    ensures var size := Pow2(32 - prefix);
            Ipv4InCidr(value, base, prefix) <==> BlockStart(base, size) <= value < BlockStart(base, size) + size
  {
    var size := Pow2(32 - prefix);
    Masked(value, prefix);
    Masked(base, prefix);
    SignedIsInjective(BlockStart(value, size), BlockStart(base, size));
    SameBlock(value, base, size);
  }

  lemma Ipv6CidrIsInterval(value: nat, base: nat, prefix: nat)
    requires prefix <= 128
    ensures var size := Pow2(128 - prefix);
            Ipv6InCidr(value, base, prefix) <==> BlockStart(base, size) <= value < BlockStart(base, size) + size
  {
    SameBlock(value, base, Pow2(128 - prefix));
  }

  // ---- The IPv6 parser as a program -------------------------------------------

  lemma {:induction false} OfWordsStep(words: seq<nat>, i: nat)
    requires i < |words|
    ensures OfWords(words[..i + 1]) == OfWords(words[..i]) * 0x1_0000 + words[i]
  {
    assert words[..i + 1][..i] == words[..i];
  }

  function Prepend(done: seq<nat>, rest: Option<seq<nat>>): Option<seq<nat>> {
    if rest.None? then None else Some(done + rest.value)
  }

  lemma PrependNone(rest: Option<seq<nat>>)
    ensures Prepend([], rest) == rest
  {
    assert rest.Some? ==> [] + rest.value == rest.value;
  }

  lemma PrependStep(done: seq<nat>, pieces: seq<string>)
    requires pieces != []
    ensures Prepend(done, AllWords(pieces)) ==
      if PieceWords(pieces[0]).None? then None
      else Prepend(done + PieceWords(pieces[0]).value, AllWords(pieces[1..]))
  {
    var first, rest := PieceWords(pieces[0]), AllWords(pieces[1..]);
    if first.Some? && rest.Some? {
      assert done + (first.value + rest.value) == done + first.value + rest.value;
    }
  }

  method ParseHalf(half: string) returns (r: Option<seq<nat>>)
    ensures r == Half(half)
    ensures r.Some? ==> AllWord16(r.value)
  {
    if half == "" {
      return Some([]);
    }
    var pieces := Split(half, ':');
    var result: seq<nat> := [];
    assert pieces[0..] == pieces;
    PrependNone(AllWords(pieces));
    for i := 0 to |pieces|
      invariant AllWord16(result)
      invariant AllWords(pieces) == Prepend(result, AllWords(pieces[i..]))
    {
      assert pieces[i..][0] == pieces[i] && pieces[i..][1..] == pieces[i + 1..];
      PrependStep(result, pieces[i..]);
      var ipv4 := ParseIpv4(pieces[i]);
      if ipv4.Some? {
        result := result + [ipv4.value / 0x1_0000 % 0x1_0000, ipv4.value % 0x1_0000];
      } else {
        if !HexText(pieces[i]) {
          return None;
        }
        HexBound(pieces[i]);
        result := result + [Numeral(pieces[i], 16)];
      }
    }
    assert pieces[|pieces|..] == [] && result + [] == result;
    return Some(result);
  }

  lemma Filled(left: seq<nat>, gap: bool, right: seq<nat>)
    requires AllWord16(left) && AllWord16(right)
    requires var missing := 8 - |left| - |right|; if gap then missing >= 1 else missing == 0
    ensures var words := left + Zeros(8 - |left| - |right|) + right;
            AllWord16(words) && Assemble(left, gap, right) == Some(OfWords(words))
  {
    if !gap {
      assert left + Zeros(0) + right == left + right;
    }
  }

  /** Two halves filled up to eight words, or refused. */
  method Combine(left: seq<nat>, gap: bool, right: seq<nat>) returns (r: Option<nat>)
    requires AllWord16(left) && AllWord16(right)
    ensures r == Assemble(left, gap, right)
  {
    var missing := 8 - |left| - |right|;
    if (!gap && missing != 0) || (gap && missing < 1) {
      return None;
    }
    Filled(left, gap, right);
    var value := Concatenate(left + Zeros(missing) + right);
    return Some(value);
  }

  method ParseIpv6(raw: string) returns (r: Option<nat>)
    ensures r == Ipv6(raw)
  {
    var input := Split(Lower(raw), '%')[0];
    if input == "" {
      return None;
    }
    var halves := SplitGap(input);
    if |halves| > 2 {
      return None;
    }
    var left := ParseHalf(halves[0]);
    var right := ParseHalf(if |halves| == 2 then halves[1] else "");
    if left.None? || right.None? {
      return None;
    }
    r := Combine(left.value, |halves| == 2, right.value);
  }

  method Concatenate(words: seq<nat>) returns (value: nat)
    requires AllWord16(words)
    ensures value == OfWords(words)
  {
    value := 0;
    for i := 0 to |words|
      invariant value == OfWords(words[..i])
    {
      Powers();
      OrAppends(value, words[i], 16);
      OfWordsStep(words, i);
      value := BitOr(value * 0x1_0000, words[i]);
    }
    assert words[..|words|] == words;
  }
}
