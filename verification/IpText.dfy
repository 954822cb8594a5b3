/** String splitting as the address parsers use it, with the joins it undoes. */
module IpText {
  function Join(parts: seq<string>, sep: string): string {
    if parts == [] then "" else if |parts| == 1 then parts[0] else parts[0] + sep + Join(parts[1..], sep)
  }

  /** `s.split(sep)` for a one-character separator. */
  function Split(s: string, sep: char): (parts: seq<string>)
    ensures |parts| >= 1 && Join(parts, [sep]) == s
    ensures forall p :: p in parts ==> sep !in p
  {
    if s == "" then [""]
    else if s[0] == sep then
      JoinEmptyFirst(Split(s[1..], sep), [sep]);
      [""] + Split(s[1..], sep)
    else
      var rest := Split(s[1..], sep);
      JoinPrefix(s[0], rest, [sep]);
      assert rest[0] in rest && forall p :: p in rest[1..] ==> p in rest;
      [[s[0]] + rest[0]] + rest[1..]
  }

  lemma {:induction false} SplitFirst(p: string, t: string, sep: char)
    requires sep !in p
    ensures Split(p + [sep] + t, sep) == [p] + Split(t, sep)
    decreases p
  {
    var s := p + [sep] + t;
    if p == "" {
      assert s[1..] == t;
    } else {
      assert s[1..] == p[1..] + [sep] + t;
      SplitFirst(p[1..], t, sep);
      assert [p[0]] + p[1..] == p;
    }
  }

  lemma {:induction false} SplitWhole(p: string, sep: char)
    requires sep !in p
    ensures Split(p, sep) == [p]
    decreases p
  {
  }

  lemma {:induction false} SplitJoin(parts: seq<string>, sep: char)
    requires parts != [] && forall p :: p in parts ==> sep !in p
    ensures Split(Join(parts, [sep]), sep) == parts
    decreases parts
  {
    if |parts| == 1 {
      SplitWhole(parts[0], sep);
    } else {
      SplitJoin(parts[1..], sep);
      SplitFirst(parts[0], Join(parts[1..], [sep]), sep);
    }
  }

  /** `s.split("::")`: leftmost matches, none overlapping. */
  function SplitGap(s: string): (halves: seq<string>)
    ensures |halves| >= 1
  {
    if |s| < 2 then [s]
    else if s[0] == ':' && s[1] == ':' then [""] + SplitGap(s[2..])
    else
      var rest := SplitGap(s[1..]);
      [[s[0]] + rest[0]] + rest[1..]
  }

  /** A character before the first part moves out of the join. */
  lemma JoinPrefix(c: char, parts: seq<string>, sep: string)
    requires parts != []
    ensures Join([[c] + parts[0]] + parts[1..], sep) == [c] + Join(parts, sep)
  {
    var longer := [[c] + parts[0]] + parts[1..];
    assert longer[1..] == parts[1..];
    if |parts| > 1 {
      var rest := Join(parts[1..], sep);
      assert ([c] + parts[0]) + sep + rest == [c] + (parts[0] + sep + rest);
    }
  }

  lemma JoinEmptyFirst(parts: seq<string>, sep: string)
    requires parts != []
    ensures Join([""] + parts, sep) == sep + Join(parts, sep)
  {
    assert ([""] + parts)[1..] == parts;
  }

  lemma {:induction false} GapJoinsBack(s: string)
    ensures Join(SplitGap(s), "::") == s
  {
    if |s| >= 2 {
      if s[0] == ':' && s[1] == ':' {
        GapJoinsBack(s[2..]);
        JoinEmptyFirst(SplitGap(s[2..]), "::");
        assert s == "::" + s[2..];
      } else {
        GapJoinsBack(s[1..]);
        JoinPrefix(s[0], SplitGap(s[1..]), "::");
        assert s == [s[0]] + s[1..];
      }
    }
  }

  predicate GapAt(s: string, i: int) {
    0 <= i && i + 1 < |s| && s[i] == ':' && s[i + 1] == ':'
  }

  ghost predicate NoGap(s: string) {
    forall i :: !GapAt(s, i)
  }

  lemma NoGapTail(s: string)
    requires NoGap(s) && s != ""
    ensures NoGap(s[1..]) && !(|s| >= 2 && s[0] == ':' && s[1] == ':')
  {
    assert !GapAt(s, 0);
    forall i ensures !GapAt(s[1..], i) {
      assert !GapAt(s, i + 1);
    }
  }

  lemma {:induction false} SplitGapNone(s: string)
    requires NoGap(s)
    ensures SplitGap(s) == [s]
    decreases s
  {
    if |s| >= 2 {
      NoGapTail(s);
      SplitGapNone(s[1..]);
      assert [s[0]] + s[1..] == s;
    }
  }

  lemma {:induction false} SplitGapOnce(left: string, right: string)
    requires NoGap(left) && NoGap(right) && (left != "" ==> left[|left| - 1] != ':')
    ensures SplitGap(left + "::" + right) == [left, right]
    decreases left
  {
    var s := left + "::" + right;
    if left == "" {
      assert s[2..] == right;
      SplitGapNone(right);
    } else {
      NoGapTail(left);
      assert s[1..] == left[1..] + "::" + right;
      SplitGapOnce(left[1..], right);
      assert [left[0]] + left[1..] == left;
      assert left[0] == ':' ==> |left| >= 2 && s[1] == left[1];
    }
  }

  /** Non-empty pieces joined by single colons never show a double one, nor end in a colon. */
  lemma {:induction false} JoinHasNoGap(pieces: seq<string>)
    requires forall p :: p in pieces ==> p != "" && ':' !in p
    ensures NoGap(Join(pieces, ":")) && (Join(pieces, ":") == "" <==> pieces == [])
    ensures pieces != [] ==> Join(pieces, ":")[0] != ':' && Join(pieces, ":")[|Join(pieces, ":")| - 1] != ':'
    decreases pieces
  {
    if |pieces| == 1 {
      assert pieces[0] in pieces;
    } else if pieces != [] {
      var p, rest := pieces[0], Join(pieces[1..], ":");
      assert p in pieces && forall q :: q in pieces[1..] ==> q in pieces;
      JoinHasNoGap(pieces[1..]);
      var s := p + ":" + rest;
      forall i ensures !GapAt(s, i) {
        assert !GapAt(rest, i - |p| - 1);
        assert 0 <= i < |p| ==> s[i] == p[i];
        assert i > |p| && i + 1 < |s| ==> s[i] == rest[i - |p| - 1] && s[i + 1] == rest[i - |p|];
      }
      assert p[0] in p && s[|s| - 1] == rest[|rest| - 1];
    }
  }
}
