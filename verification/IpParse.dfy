/**
 Address parsing (src/oauth/client-id-metadata.ts): `parseIpv4` and `parseIpv6`, with the textual
 forms they accept written out as a grammar of their own.
 */
module IpParse {
  import opened Wrappers
  import opened IpText

  predicate IsDigit(c: char) { '0' <= c <= '9' }

  predicate IsHexDigit(c: char) { IsDigit(c) || 'a' <= c <= 'f' }

  predicate AllHex(s: string) { forall i :: 0 <= i < |s| ==> IsHexDigit(s[i]) }

  predicate AllDigits(s: string) { forall i :: 0 <= i < |s| ==> IsDigit(s[i]) }

  function DigitValue(c: char): (v: nat)
    requires IsHexDigit(c)
    ensures v < 16
  {
    if IsDigit(c) then c as int - '0' as int else c as int - 'a' as int + 10
  }

  /** The number a string of digits denotes, most significant first. */
  function Numeral(s: string, radix: nat): nat
    requires AllHex(s)
  {
    if s == "" then 0 else Numeral(s[..|s| - 1], radix) * radix + DigitValue(s[|s| - 1])
  }

  // ---- IPv4 ------------------------------------------------------------------

  predicate OctetText(s: string) { 1 <= |s| <= 3 && AllDigits(s) && Numeral(s, 10) <= 255 }

  /** The octets read in base 256. */
  function OfOctets(parts: seq<string>): nat
    requires forall i :: 0 <= i < |parts| ==> OctetText(parts[i])
  {
    if parts == [] then 0
    else
      var last := parts[|parts| - 1];
      assert OctetText(last);
      OfOctets(parts[..|parts| - 1]) * 256 + Numeral(last, 10)
  }

  function Ipv4(raw: string): Option<nat> {
    var parts := Split(raw, '.');
    if |parts| == 4 && forall i :: 0 <= i < 4 ==> OctetText(parts[i]) then Some(OfOctets(parts)) else None
  }

  datatype Quad = Quad(a: string, b: string, c: string, d: string) {
    predicate Legal() { OctetText(a) && OctetText(b) && OctetText(c) && OctetText(d) }

    function Text(): string { a + "." + b + "." + c + "." + d }

    function Value(): nat
      requires Legal()
    {
      Numeral(a, 10) * 0x100_0000 + Numeral(b, 10) * 0x1_0000 + Numeral(c, 10) * 0x100 + Numeral(d, 10)
    }
  }

  lemma FourOctets(p: string, q: string, r: string, s: string)
    requires OctetText(p) && OctetText(q) && OctetText(r) && OctetText(s)
    ensures OfOctets([p, q, r, s]) == Quad(p, q, r, s).Value() < 0x1_0000_0000
  {
    assert [p, q, r, s][..3] == [p, q, r] && [p, q, r][..2] == [p, q] && [p, q][..1] == [p] && [p][..0] == [];
    assert OfOctets([p]) == Numeral(p, 10);
    assert OfOctets([p, q]) == OfOctets([p]) * 256 + Numeral(q, 10);
    assert OfOctets([p, q, r]) == OfOctets([p, q]) * 256 + Numeral(r, 10);
  }

  lemma JoinFour(p: string, q: string, r: string, s: string, sep: string)
    ensures Join([p, q, r, s], sep) == p + sep + q + sep + r + sep + s
  {
    assert [p, q, r, s][1..] == [q, r, s] && [q, r, s][1..] == [r, s] && [r, s][1..] == [s];
    assert Join([r, s], sep) == r + sep + s;
    assert Join([q, r, s], sep) == q + sep + (r + sep + s) == q + sep + r + sep + s;
    assert p + sep + (q + sep + r + sep + s) == p + sep + q + sep + r + sep + s;
  }

  lemma QuadParses(q: Quad)
    requires q.Legal()
    ensures Ipv4(q.Text()) == Some(q.Value())
  {
    var parts := [q.a, q.b, q.c, q.d];
    JoinFour(q.a, q.b, q.c, q.d, ".");
    SplitJoin(parts, '.');
    FourOctets(q.a, q.b, q.c, q.d);
  }

  function QuadOf(raw: string): (q: Quad)
    requires Ipv4(raw).Some?
    ensures q.Legal()
  {
    var parts := Split(raw, '.');
    Quad(parts[0], parts[1], parts[2], parts[3])
  }

  lemma QuadOfIsIt(raw: string)
    requires Ipv4(raw).Some?
    ensures QuadOf(raw).Text() == raw && Ipv4(raw) == Some(QuadOf(raw).Value()) && QuadOf(raw).Value() < 0x1_0000_0000
  {
    var parts, q := Split(raw, '.'), QuadOf(raw);
    assert parts == [q.a, q.b, q.c, q.d];
    JoinFour(q.a, q.b, q.c, q.d, ".");
    FourOctets(q.a, q.b, q.c, q.d);
  }

  /** Exactly the dotted quads are accepted, with the value their octets spell. */
  lemma Ipv4Exact(raw: string, n: nat)
    ensures Ipv4(raw) == Some(n) <==> exists q: Quad :: q.Legal() && q.Text() == raw && q.Value() == n
  {
    if Ipv4(raw) == Some(n) {
      QuadOfIsIt(raw);
    }
    if q: Quad :| q.Legal() && q.Text() == raw && q.Value() == n {
      QuadParses(q);
    }
  }

  function DigitChar(d: nat): (c: char)
    requires d < 16
    ensures IsHexDigit(c) && DigitValue(c) == d && (d < 10 ==> IsDigit(c))
  {
    if d < 10 then '0' + d as char else 'a' + (d - 10) as char
  }

  /** Digits of `n` in the given base without leading zeros. */
  function Print(n: nat, radix: nat): string
    requires radix == 10 || radix == 16
    decreases n
  {
    if n < radix then [DigitChar(n)] else Print(n / radix, radix) + [DigitChar(n % radix)]
  }

  lemma {:induction false} PrintRoundTrip(n: nat, radix: nat)
    requires radix == 10 || radix == 16
    ensures AllHex(Print(n, radix)) && Numeral(Print(n, radix), radix) == n && |Print(n, radix)| >= 1
    ensures radix == 10 ==> AllDigits(Print(n, radix))
    decreases n
  {
    if n < radix {
      assert Print(n, radix)[..0] == "";
    } else {
      PrintRoundTrip(n / radix, radix);
      var s := Print(n, radix);
      assert s[..|s| - 1] == Print(n / radix, radix);
    }
  }

  function PrintIpv4(n: nat): string
    requires n < 0x1_0000_0000
  {
    Print(n / 0x100_0000, 10) + "." + Print(n / 0x1_0000 % 256, 10) + "." + Print(n / 0x100 % 256, 10)
    + "." + Print(n % 256, 10)
  }

  lemma PrintedOctet(n: nat)
    requires n < 256
    ensures OctetText(Print(n, 10)) && Numeral(Print(n, 10), 10) == n
  {
    PrintRoundTrip(n, 10);
    if n >= 10 {
      assert |Print(n / 10, 10)| == if n / 10 < 10 then 1 else |Print(n / 10 / 10, 10)| + 1;
    }
  }

  lemma OctetsMakeUp(n: nat)
    requires n < 0x1_0000_0000
    ensures n == n / 0x100_0000 * 0x100_0000 + n / 0x1_0000 % 256 * 0x1_0000 + n / 0x100 % 256 * 0x100 + n % 256
    ensures n / 0x100_0000 < 256
  {
    var n1 := n / 0x100;
    var n2 := n1 / 0x100;
    var n3 := n2 / 0x100;
    assert n2 == n / 0x1_0000 && n3 == n / 0x100_0000;
    assert n == n1 * 0x100 + n % 256 && n1 == n2 * 0x100 + n1 % 256 && n2 == n3 * 0x100 + n2 % 256;
  }

  lemma Ipv4RoundTrip(n: nat)
    requires n < 0x1_0000_0000
    ensures Ipv4(PrintIpv4(n)) == Some(n)
  {
    var a, b, c, d := n / 0x100_0000, n / 0x1_0000 % 256, n / 0x100 % 256, n % 256;
    OctetsMakeUp(n);
    PrintedOctet(a);
    PrintedOctet(b);
    PrintedOctet(c);
    PrintedOctet(d);
    QuadParses(Quad(Print(a, 10), Print(b, 10), Print(c, 10), Print(d, 10)));
  }

  lemma {:induction false} OctetsBound(parts: seq<string>)
    requires |parts| <= 4 && forall i :: 0 <= i < |parts| ==> OctetText(parts[i])
    ensures |parts| <= 3 ==> OfOctets(parts) < 0x100_0000
    ensures |parts| <= 2 ==> OfOctets(parts) < 0x1_0000
    ensures |parts| <= 1 ==> OfOctets(parts) < 0x100
    ensures OfOctets(parts) < 0x1_0000_0000
    decreases parts
  {
    if parts != [] {
      OctetsBound(parts[..|parts| - 1]);
    }
  }

  method ParseIpv4(raw: string) returns (r: Option<nat>)
    ensures r == Ipv4(raw)
  {
    var parts := Split(raw, '.');
    if |parts| != 4 {
      return None;
    }
    var value := 0;
    for i := 0 to |parts|
      invariant forall j :: 0 <= j < i ==> OctetText(parts[j])
      invariant value == OfOctets(parts[..i])
    {
      var part := parts[i];
      if !(1 <= |part| <= 3 && AllDigits(part)) {
        return None;
      }
      var octet := Numeral(part, 10);
      if octet > 255 {
        return None;
      }
      assert parts[..i + 1][..i] == parts[..i];
      value := value * 256 + octet;
    }
    assert parts[..4] == parts;
    OctetsBound(parts);
    return Some(value % 0x1_0000_0000);
  }

  // ---- IPv6 ------------------------------------------------------------------

  predicate HexText(s: string) { 1 <= |s| <= 4 && AllHex(s) }

  lemma {:induction false} HexBound(s: string)
    requires |s| <= 4 && AllHex(s)
    ensures |s| == 0 ==> Numeral(s, 16) == 0
    ensures |s| <= 1 ==> Numeral(s, 16) < 0x10
    ensures |s| <= 2 ==> Numeral(s, 16) < 0x100
    ensures |s| <= 3 ==> Numeral(s, 16) < 0x1000
    ensures Numeral(s, 16) < 0x1_0000
    decreases s
  {
    if s != "" {
      HexBound(s[..|s| - 1]);
    }
  }

  function LowerChar(c: char): char {
    if 'A' <= c <= 'Z' then c - 'A' + 'a' else c
  }

  function Lower(s: string): string {
    seq(|s|, i requires 0 <= i < |s| => LowerChar(s[i]))
  }

  /** Lower case, without a zone. */
  function Cleaned(raw: string): string { Split(Lower(raw), '%')[0] }

  function PieceWords(piece: string): Option<seq<nat>> {
    match Ipv4(piece)
    case Some(n) => Some([n / 0x1_0000 % 0x1_0000, n % 0x1_0000])
    case None => if HexText(piece) then Some([Numeral(piece, 16)]) else None
  }

  function AllWords(pieces: seq<string>): Option<seq<nat>> {
    if pieces == [] then Some([])
    else
      match PieceWords(pieces[0])
      case None => None
      case Some(first) =>
        match AllWords(pieces[1..])
        case None => None
        case Some(rest) => Some(first + rest)
  }

  function Half(half: string): Option<seq<nat>> {
    if half == "" then Some([]) else AllWords(Split(half, ':'))
  }

  function Zeros(n: nat): seq<nat> { seq(n, _ => 0) }

  /** Words read in base 65536. */
  function OfWords(words: seq<nat>): nat {
    if words == [] then 0 else OfWords(words[..|words| - 1]) * 0x1_0000 + words[|words| - 1]
  }

  /** Two halves filled up to eight words; a gap stands for at least one. */
  function Assemble(left: seq<nat>, gap: bool, right: seq<nat>): Option<nat> {
    if |left| + |right| == 8 && !gap then Some(OfWords(left + right))
    else if |left| + |right| < 8 && gap then Some(OfWords(left + Zeros(8 - |left| - |right|) + right))
    else None
  }

  function FromText(input: string): Option<nat> {
    var halves := SplitGap(input);
    if input == "" || |halves| > 2 then None
    else
      var left, right := Half(halves[0]), if |halves| == 2 then Half(halves[1]) else Some([]);
      if left.None? || right.None? then None else Assemble(left.value, |halves| == 2, right.value)
  }

  function Ipv6(raw: string): Option<nat> { FromText(Cleaned(raw)) }

  // ---- The textual forms of section 2.2 of RFC 4291 ---------------------------

  datatype Piece = Hex(digits: string) | Dotted(quad: Quad) {
    predicate Legal() {
      match this
      case Hex(s) => HexText(s)
      case Dotted(q) => q.Legal()
    }

    function Text(): string {
      match this
      case Hex(s) => s
      case Dotted(q) => q.Text()
    }

    function Words(): seq<nat>
      requires Legal()
    {
      match this
      case Hex(s) => [Numeral(s, 16)]
      case Dotted(q) =>
        [Numeral(q.a, 10) * 256 + Numeral(q.b, 10), Numeral(q.c, 10) * 256 + Numeral(q.d, 10)]
    }
  }

  predicate AllLegal(pieces: seq<Piece>) { forall i :: 0 <= i < |pieces| ==> pieces[i].Legal() }

  function Texts(pieces: seq<Piece>): (texts: seq<string>)
    ensures |texts| == |pieces|
  {
    seq(|pieces|, i requires 0 <= i < |pieces| => pieces[i].Text())
  }

  function WordsOf(pieces: seq<Piece>): seq<nat>
    requires AllLegal(pieces)
  {
    if pieces == [] then [] else pieces[0].Words() + WordsOf(pieces[1..])
  }

  datatype Form = Form(left: seq<Piece>, gap: bool, right: seq<Piece>) {
    /** Eight words in all, or fewer around one `::`. */
    predicate Legal() {
      && AllLegal(left) && AllLegal(right)
      && var n := |WordsOf(left)| + |WordsOf(right)|;
         if gap then n < 8 else n == 8 && right == []
    }

    function Text(): string {
      Join(Texts(left), ":") + if gap then "::" + Join(Texts(right), ":") else ""
    }

    function Value(): nat
      requires Legal()
    {
      OfWords(WordsOf(left) + Zeros(8 - |WordsOf(left)| - |WordsOf(right)|) + WordsOf(right))
    }
  }

  lemma QuadHasNoColon(q: Quad)
    requires q.Legal()
    ensures ':' !in q.Text() && '.' in q.Text() && q.Text() != "" && !HexText(q.Text())
  {
  }

  lemma QuadWords(q: Quad)
    requires q.Legal()
    ensures [q.Value() / 0x1_0000 % 0x1_0000, q.Value() % 0x1_0000] == Dotted(q).Words()
  {
    TwoWords(Numeral(q.a, 10), Numeral(q.b, 10), Numeral(q.c, 10), Numeral(q.d, 10));
  }

  lemma TwoWords(a: nat, b: nat, c: nat, d: nat)
    requires a < 256 && b < 256 && c < 256 && d < 256
    ensures var n := a * 0x100_0000 + b * 0x1_0000 + c * 0x100 + d;
            n / 0x1_0000 % 0x1_0000 == a * 256 + b && n % 0x1_0000 == c * 256 + d
  {
    var hi, lo := a * 256 + b, c * 256 + d;
    var n := hi * 0x1_0000 + lo;
    assert n / 0x1_0000 == hi && n % 0x1_0000 == lo;
  }

  lemma PieceParses(p: Piece)
    requires p.Legal()
    ensures PieceWords(p.Text()) == Some(p.Words()) && p.Text() != "" && ':' !in p.Text()
  {
    match p {
      case Hex(s) =>
        SplitWhole(s, '.');
      case Dotted(q) =>
        QuadParses(q);
        QuadWords(q);
        QuadHasNoColon(q);
    }
  }

  lemma ConsTexts(p: Piece, rest: seq<Piece>)
    ensures Texts([p] + rest) == [p.Text()] + Texts(rest)
  {
    var all := [p] + rest;
    forall i | 0 <= i < |all| ensures Texts(all)[i] == ([p.Text()] + Texts(rest))[i] {
      assert all[i] == if i == 0 then p else rest[i - 1];
    }
  }

  lemma Cons(p: Piece, rest: seq<Piece>)
    requires p.Legal() && AllLegal(rest)
    ensures AllLegal([p] + rest) && Texts([p] + rest) == [p.Text()] + Texts(rest)
    ensures WordsOf([p] + rest) == p.Words() + WordsOf(rest)
  {
    var all := [p] + rest;
    assert all[0] == p && all[1..] == rest;
    assert AllLegal(all) by {
      forall i | 0 <= i < |all| ensures all[i].Legal() {
        assert all[i] == if i == 0 then p else rest[i - 1];
      }
    }
    ConsTexts(p, rest);
  }

  lemma AllWordsCons(t: string, rest: seq<string>, first: seq<nat>, more: seq<nat>)
    requires PieceWords(t) == Some(first) && AllWords(rest) == Some(more)
    ensures AllWords([t] + rest) == Some(first + more)
  {
    assert ([t] + rest)[1..] == rest;
  }

  /** Texts that can be joined by colons: not empty, and without colons of their own. */
  predicate Joinable(texts: seq<string>) {
    forall t :: t in texts ==> t != "" && ':' !in t
  }

  lemma {:induction false} PiecesParse(pieces: seq<Piece>)
    requires AllLegal(pieces)
    ensures AllWords(Texts(pieces)) == Some(WordsOf(pieces)) && Joinable(Texts(pieces))
    decreases pieces
  {
    if pieces != [] {
      var p, rest := pieces[0], pieces[1..];
      assert pieces == [p] + rest;
      PieceParses(p);
      PiecesParse(rest);
      Cons(p, rest);
      AllWordsCons(p.Text(), Texts(rest), p.Words(), WordsOf(rest));
    }
  }

  lemma HalfParses(pieces: seq<Piece>)
    requires AllLegal(pieces)
    ensures Half(Join(Texts(pieces), ":")) == Some(WordsOf(pieces))
  {
    PiecesParse(pieces);
    JoinHasNoGap(Texts(pieces));
    if pieces != [] {
      SplitJoin(Texts(pieces), ':');
    }
  }

  /** The text of one half, and what parsing makes of it. */
  lemma HalfText(pieces: seq<Piece>) returns (text: string)
    requires AllLegal(pieces)
    ensures text == Join(Texts(pieces), ":") && Half(text) == Some(WordsOf(pieces))
    ensures NoGap(text) && (text == "" <==> pieces == []) && (text != "" ==> text[|text| - 1] != ':')
  {
    text := Join(Texts(pieces), ":");
    HalfParses(pieces);
    PiecesParse(pieces);
    JoinHasNoGap(Texts(pieces));
  }

  lemma GapTextParses(left: string, right: string)
    requires NoGap(left) && NoGap(right) && (left != "" ==> left[|left| - 1] != ':')
    requires Half(left).Some? && Half(right).Some?
    ensures FromText(left + "::" + right) == Assemble(Half(left).value, true, Half(right).value)
  {
    SplitGapOnce(left, right);
  }

  lemma FullTextParses(text: string)
    requires NoGap(text) && text != "" && Half(text).Some?
    ensures FromText(text) == Assemble(Half(text).value, false, [])
  {
    SplitGapNone(text);
  }

  lemma AssembledValue(f: Form)
    requires f.Legal()
    ensures Assemble(WordsOf(f.left), f.gap, WordsOf(f.right)) == Some(f.Value())
  {
    if !f.gap {
      assert WordsOf(f.left) + Zeros(0) + [] == WordsOf(f.left) + [];
    }
  }

  lemma FormParses(f: Form)
    requires f.Legal()
    ensures FromText(f.Text()) == Some(f.Value())
  {
    AssembledValue(f);
    FormText(f.left, f.right);
    if f.gap {
      GapFormParses(f.left, f.right);
    } else {
      var left := HalfText(f.left);
      FullTextParses(left);
    }
  }

  lemma GapFormParses(left: seq<Piece>, right: seq<Piece>)
    requires AllLegal(left) && AllLegal(right)
    ensures FromText(Join(Texts(left), ":") + "::" + Join(Texts(right), ":"))
         == Assemble(WordsOf(left), true, WordsOf(right))
  {
    var l := HalfText(left);
    var r := HalfText(right);
    GapTextParses(l, r);
  }

  function PieceOf(t: string): (p: Piece) {
    if Ipv4(t).Some? then Dotted(QuadOf(t)) else Hex(t)
  }

  lemma PieceOfIsIt(t: string)
    requires PieceWords(t).Some?
    ensures PieceOf(t).Legal() && PieceOf(t).Text() == t && PieceWords(t) == Some(PieceOf(t).Words())
  {
    if Ipv4(t).Some? {
      QuadOfIsIt(t);
      QuadWords(QuadOf(t));
    }
  }

  lemma {:induction false} PiecesOf(texts: seq<string>) returns (pieces: seq<Piece>)
    requires AllWords(texts).Some?
    ensures AllLegal(pieces) && Texts(pieces) == texts && AllWords(texts) == Some(WordsOf(pieces))
    decreases texts
  {
    if texts == [] {
      pieces := [];
    } else {
      PieceOfIsIt(texts[0]);
      var rest := PiecesOf(texts[1..]);
      Cons(PieceOf(texts[0]), rest);
      pieces := [PieceOf(texts[0])] + rest;
    }
  }

  lemma HalfOf(half: string) returns (pieces: seq<Piece>)
    requires Half(half).Some?
    ensures AllLegal(pieces) && Join(Texts(pieces), ":") == half && Half(half) == Some(WordsOf(pieces))
  {
    if half == "" {
      pieces := [];
    } else {
      pieces := PiecesOf(Split(half, ':'));
    }
  }

  lemma JoinTwo(halves: seq<string>, sep: string)
    requires |halves| == 2
    ensures Join(halves, sep) == halves[0] + sep + halves[1]
  {
  }

  lemma FormText(left: seq<Piece>, right: seq<Piece>)
    ensures Form(left, true, right).Text() == Join(Texts(left), ":") + "::" + Join(Texts(right), ":")
    ensures Form(left, false, right).Text() == Join(Texts(left), ":")
  {
  }

  lemma FormOf(input: string) returns (f: Form)
    requires FromText(input).Some?
    ensures f.Legal() && f.Text() == input && FromText(input) == Some(f.Value())
  {
    var halves := SplitGap(input);
    var left := HalfOf(halves[0]);
    if |halves| == 2 {
      f := GapFormOf(input, halves, left);
    } else {
      f := Form(left, false, []);
      GapJoinsBack(input);
      FormText(left, []);
      AssembledValue(f);
    }
  }

  lemma GapFormOf(input: string, halves: seq<string>, left: seq<Piece>) returns (f: Form)
    requires FromText(input).Some? && halves == SplitGap(input) && |halves| == 2
    requires AllLegal(left) && Join(Texts(left), ":") == halves[0] && Half(halves[0]) == Some(WordsOf(left))
    ensures f.Legal() && f.Text() == input && FromText(input) == Some(f.Value())
  {
    var right := HalfOf(halves[1]);
    f := Form(left, true, right);
    GapJoinsBack(input);
    JoinTwo(halves, "::");
    FormText(left, right);
    AssembledValue(f);
  }

  /**
   Exactly the texts of the legal forms are accepted, once the case is folded and a zone dropped,
   with the value of the form's eight words.
   */
  lemma Ipv6Exact(raw: string, n: nat)
    ensures Ipv6(raw) == Some(n) <==> exists f: Form :: f.Legal() && f.Text() == Cleaned(raw) && f.Value() == n
  {
    if Ipv6(raw) == Some(n) {
      var f := FormOf(Cleaned(raw));
    }
    if f: Form :| f.Legal() && f.Text() == Cleaned(raw) && f.Value() == n {
      FormParses(f);
    }
  }
}
