/** Printing an address and reading it back, under any legal `::` compression. */
module IpPrint {
  import opened Wrappers
  import opened IpText
  import opened IpParse

  predicate PlainChar(c: char) { IsHexDigit(c) || c == '.' || c == ':' }

  predicate Plain(s: string) { forall i :: 0 <= i < |s| ==> PlainChar(s[i]) }

  lemma PlainConcat(s: string, t: string)
    requires Plain(s) && Plain(t)
    ensures Plain(s + t)
  {
  }

  lemma PiecePlain(p: Piece)
    requires p.Legal()
    ensures Plain(p.Text())
  {
  }

  lemma {:induction false} HalfPlain(pieces: seq<Piece>)
    requires AllLegal(pieces)
    ensures Plain(Join(Texts(pieces), ":"))
    decreases pieces
  {
    if pieces != [] {
      PiecePlain(pieces[0]);
      HalfPlain(pieces[1..]);
      assert Texts(pieces)[1..] == Texts(pieces[1..]);
      PlainConcat(pieces[0].Text(), ":");
      PlainConcat(pieces[0].Text() + ":", Join(Texts(pieces[1..]), ":"));
    }
  }

  lemma PlainIsClean(s: string)
    requires Plain(s)
    ensures Cleaned(s) == s
  {
    forall i | 0 <= i < |s| ensures Lower(s)[i] == s[i] {
      assert PlainChar(s[i]);
    }
    assert Lower(s) == s;
    SplitWhole(s, '%');
  }

  /** Every legal form is read back as its value. */
  lemma TextParses(f: Form)
    requires f.Legal()
    ensures Ipv6(f.Text()) == Some(f.Value())
  {
    HalfPlain(f.left);
    HalfPlain(f.right);
    FormText(f.left, f.right);
    PlainConcat(Join(Texts(f.left), ":"), "::");
    PlainConcat(Join(Texts(f.left), ":") + "::", Join(Texts(f.right), ":"));
    PlainIsClean(f.Text());
    FormParses(f);
  }

  predicate AllWord16(ws: seq<nat>) { forall i :: 0 <= i < |ws| ==> ws[i] < 0x1_0000 }

  function HexPieces(ws: seq<nat>): (pieces: seq<Piece>)
    ensures |pieces| == |ws|
  {
    seq(|ws|, i requires 0 <= i < |ws| => Hex(Print(ws[i], 16)))
  }

  lemma PrintedWord(w: nat)
    requires w < 0x1_0000
    ensures HexText(Print(w, 16)) && Numeral(Print(w, 16), 16) == w
  {
    PrintRoundTrip(w, 16);
    if w >= 0x10 {
      if w / 0x10 >= 0x10 {
        var u := w / 0x10 / 0x10;
        assert u >= 0x10 ==> |Print(u / 0x10, 16)| == 1;
        assert |Print(u, 16)| <= 2;
      }
      assert |Print(w / 0x10, 16)| <= 3;
    }
  }

  lemma {:induction false} HexPiecesMean(ws: seq<nat>)
    requires AllWord16(ws)
    ensures AllLegal(HexPieces(ws)) && WordsOf(HexPieces(ws)) == ws
    decreases ws
  {
    if ws != [] {
      PrintedWord(ws[0]);
      HexPiecesMean(ws[1..]);
      Cons(Hex(Print(ws[0], 16)), HexPieces(ws[1..]));
      assert HexPieces(ws) == [Hex(Print(ws[0], 16))] + HexPieces(ws[1..]);
    }
  }

  function FullText(ws: seq<nat>): string { Form(HexPieces(ws), false, []).Text() }

  function GapText(left: seq<nat>, right: seq<nat>): string {
    Form(HexPieces(left), true, HexPieces(right)).Text()
  }

  /** Eight groups, or the same with the words from `i` up to `j` written as `::`. */
  function PrintIpv6(ws: seq<nat>, i: nat, j: nat): string
    requires i <= j <= |ws|
  {
    if i == j then FullText(ws) else GapText(ws[..i], ws[j..])
  }

  /** Whichever run of zero words is compressed, if any, the eight words are read back. */
  lemma Ipv6RoundTrip(ws: seq<nat>, i: nat, j: nat)
    requires |ws| == 8 && AllWord16(ws) && i <= j <= 8
    requires forall k :: i <= k < j ==> ws[k] == 0
    ensures Ipv6(PrintIpv6(ws, i, j)) == Some(OfWords(ws))
  {
    if i == j {
      PrintedInFull(ws);
    } else {
      PrintedInParts(ws, i, j);
    }
  }

  lemma PrintedInParts(ws: seq<nat>, i: nat, j: nat)
    requires |ws| == 8 && AllWord16(ws) && i < j <= 8
    requires forall k :: i <= k < j ==> ws[k] == 0
    ensures Ipv6(GapText(ws[..i], ws[j..])) == Some(OfWords(ws))
  {
    Parts(ws, i, j);
    PrintedAround(ws, ws[..i], j - i, ws[j..]);
  }

  lemma PrintedAround(ws: seq<nat>, left: seq<nat>, n: nat, right: seq<nat>)
    requires |left| + n + |right| == 8 && n > 0 && AllWord16(left) && AllWord16(right)
    requires ws == WithZeros(left, n, right)
    ensures Ipv6(GapText(left, right)) == Some(OfWords(ws))
  {
    PrintedWithGap(left, n, right);
  }

  /** Two halves and `n` zero words between them. */
  function WithZeros(left: seq<nat>, n: nat, right: seq<nat>): seq<nat> { left + Zeros(n) + right }

  lemma Parts(ws: seq<nat>, i: nat, j: nat)
    requires |ws| == 8 && AllWord16(ws) && i <= j <= 8
    requires forall k :: i <= k < j ==> ws[k] == 0
    ensures AllWord16(ws[..i]) && AllWord16(ws[j..]) && WithZeros(ws[..i], j - i, ws[j..]) == ws
  {
  }

  lemma PrintedInFull(ws: seq<nat>)
    requires |ws| == 8 && AllWord16(ws)
    ensures Ipv6(FullText(ws)) == Some(OfWords(ws))
  {
    HexPiecesMean(ws);
    TextParses(Form(HexPieces(ws), false, []));
    assert ws + Zeros(0) + [] == ws;
  }

  lemma GapTextRead(left: seq<Piece>, n: nat, right: seq<Piece>)
    requires AllLegal(left) && AllLegal(right) && n > 0
    requires |WordsOf(left)| + n + |WordsOf(right)| == 8
    ensures Ipv6(Form(left, true, right).Text()) == Some(OfWords(WordsOf(left) + Zeros(n) + WordsOf(right)))
  {
    var f := Form(left, true, right);
    TextParses(f);
  }

  lemma PrintedWithGap(left: seq<nat>, n: nat, right: seq<nat>)
    requires |left| + n + |right| == 8 && n > 0 && AllWord16(left) && AllWord16(right)
    ensures Ipv6(GapText(left, right)) == Some(OfWords(WithZeros(left, n, right)))
  {
    HexPiecesMean(left);
    HexPiecesMean(right);
    GapTextRead(HexPieces(left), n, HexPieces(right));
  }

  lemma SameDigits(a: nat, b: nat, u: nat, v: nat)
    requires a * 0x1_0000 + u == b * 0x1_0000 + v && u < 0x1_0000 && v < 0x1_0000
    ensures a == b && u == v
  {
  }

  /** Distinct word vectors have distinct values, so reading back recovers the words themselves. */
  lemma {:induction false} WordsAreRecovered(us: seq<nat>, vs: seq<nat>)
    requires |us| == |vs| && AllWord16(us) && AllWord16(vs) && OfWords(us) == OfWords(vs)
    ensures us == vs
    decreases us
  {
    if us != [] {
      var m := |us| - 1;
      SameDigits(OfWords(us[..m]), OfWords(vs[..m]), us[m], vs[m]);
      WordsAreRecovered(us[..m], vs[..m]);
      assert us == us[..m] + [us[m]] && vs == vs[..m] + [vs[m]];
    }
  }
}
