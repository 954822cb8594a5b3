/**
 SQL's `ORDER BY at ASC, key ASC LIMIT k` on a set of (time, key) entries, and the grouping of
 several cut lists. Row keys are strings under one fixed collation; they appear here as integers
 in that order.
 */
module Selection {
  import opened Arithmetic

  type RowKey = int

  datatype Entry = Entry(at: int, key: RowKey)

  predicate Less(a: Entry, b: Entry) {
    a.at < b.at || (a.at == b.at && a.key < b.key)
  }

  /** `f` is the first `k` entries of `s`. */
  predicate IsFirst(f: set<Entry>, s: set<Entry>, k: nat) {
    && f <= s
    && |f| == Min(k, |s|)
    && forall a, b :: a in f && b in s && b !in f ==> Less(a, b)
  }

  ghost predicate IsLeast(m: Entry, s: set<Entry>) {
    m in s && forall x :: x in s && x != m ==> Less(m, x)
  }

  lemma LeastExists(s: set<Entry>)
    requires s != {}
    ensures exists m :: IsLeast(m, s)
  {
    var x :| x in s;
    if s == {x} {
      assert IsLeast(x, s);
    } else {
      LeastExists(s - {x});
      var m :| IsLeast(m, s - {x});
      var least := if Less(x, m) then x else m;
      forall y | y in s && y != least ensures Less(least, y) {
        assert y == x || y in s - {x};
      }
      assert IsLeast(least, s);
    }
  }

  function Least(s: set<Entry>): (m: Entry)
    requires s != {}
    ensures IsLeast(m, s)
  {
    LeastExists(s);
    var m :| m in s && forall x :: x in s && x != m ==> Less(m, x);
    m
  }

  lemma FirstExists(s: set<Entry>, k: nat)
    ensures exists f :: IsFirst(f, s, k)
    decreases k
  {
    if k == 0 || s == {} {
      assert IsFirst({}, s, k);
    } else {
      var m := Least(s);
      FirstExists(s - {m}, k - 1);
      var f :| IsFirst(f, s - {m}, k - 1);
      assert IsFirst({m} + f, s, k);
    }
  }

  lemma SubsetCount<T>(a: set<T>, b: set<T>)
    requires a <= b
    ensures |a| <= |b|
    ensures |a| == |b| ==> a == b
  {
    assert b == a + (b - a);
  }

  lemma FirstUnique(f: set<Entry>, g: set<Entry>, s: set<Entry>, k: nat)
    requires IsFirst(f, s, k) && IsFirst(g, s, k)
    ensures f == g
  {
    if f <= g {
      SubsetCount(f, g);
    } else if g <= f {
      SubsetCount(g, f);
    } else {
      var a, b :| a in f && a !in g && b in g && b !in f;
      assert false;
    }
  }

  lemma FirstAlwaysUnique(s: set<Entry>, k: nat)
    ensures forall f, g :: IsFirst(f, s, k) && IsFirst(g, s, k) ==> f == g
  {
    forall f, g | IsFirst(f, s, k) && IsFirst(g, s, k) ensures f == g {
      FirstUnique(f, g, s, k);
    }
  }

  function First(s: set<Entry>, k: nat): (f: set<Entry>)
    ensures IsFirst(f, s, k)
  {
    FirstExists(s, k);
    FirstAlwaysUnique(s, k);
    var f :| f <= s && IsFirst(f, s, k);
    f
  }

  /** Taking `a` entries and then `b` of the rest takes the first `a + b`. */
  lemma FirstTwice(s: set<Entry>, a: nat, b: nat)
    ensures First(s, a) + First(s - First(s, a), b) == First(s, a + b)
  {
    var f, g := First(s, a), First(s - First(s, a), b);
    assert |f + g| == |f| + |g| && |s - f| == |s| - |f|;
    FirstUnique(f + g, First(s, a + b), s, a + b);
  }

  /** A limit that does not cut takes everything. */
  lemma FirstAll(s: set<Entry>, k: nat)
    requires |s| <= k || |First(s, k)| < k
    ensures First(s, k) == s
  {
    FirstUnique(First(s, k), s, s, k);
  }

  // ---- Grouping by key -------------------------------------------------------

  function Keys(s: set<Entry>): set<RowKey> {
    set e | e in s :: e.key
  }

  ghost predicate DistinctKeys(s: set<Entry>) {
    forall a, b :: a in s && b in s && a.key == b.key ==> a == b
  }

  lemma {:induction false} KeyCount(s: set<Entry>)
    ensures |Keys(s)| <= |s|
    ensures DistinctKeys(s) ==> |Keys(s)| == |s|
  {
    if s != {} {
      var e :| e in s;
      KeyCount(s - {e});
      assert Keys(s) == Keys(s - {e}) + {e.key};
    }
  }

  /** GROUP BY key with MIN(at). */
  function Grouped(s: set<Entry>): set<Entry> {
    set e | e in s && forall d :: d in s && d.key == e.key ==> e.at <= d.at
  }

  lemma LeastOfGroup(s: set<Entry>, e: Entry) returns (g: Entry)
    requires e in s
    ensures g in Grouped(s) && g.key == e.key && g.at <= e.at
  {
    var same := set d | d in s && d.key == e.key;
    assert e in same;
    g := Least(same);
    forall d | d in s && d.key == g.key ensures g.at <= d.at {
      assert d in same;
    }
  }

  lemma GroupedKeys(s: set<Entry>)
    ensures DistinctKeys(Grouped(s)) && Keys(Grouped(s)) == Keys(s) && |Grouped(s)| == |Keys(s)|
  {
    forall k | k in Keys(s) ensures k in Keys(Grouped(s)) {
      var e :| e in s && e.key == k;
      var g := LeastOfGroup(s, e);
    }
    KeyCount(Grouped(s));
  }

  lemma GroupedDistinct(s: set<Entry>)
    requires DistinctKeys(s)
    ensures Grouped(s) == s
  {
  }

  // ---- Several lists, cut and merged -----------------------------------------

  /** UNION ALL of the lists. */
  function Union(lists: seq<set<Entry>>): set<Entry> {
    set i, e | 0 <= i < |lists| && e in lists[i] :: e
  }

  /** UNION ALL of the first `k` of each list. */
  function CutUnion(lists: seq<set<Entry>>, k: nat): set<Entry> {
    set i, e | 0 <= i < |lists| && e in First(lists[i], k) :: e
  }

  /** Whatever comes before a globally chosen entry belongs to another chosen group. */
  lemma EarlierKeyChosen(all: set<Entry>, chosen: set<Entry>, k: nat, e: Entry, f: Entry)
    requires IsFirst(chosen, Grouped(all), k)
    requires e in chosen && f in all && Less(f, e)
    ensures f.key in Keys(chosen - {e})
  {
    var g := LeastOfGroup(all, f);
    assert g in chosen - {e};
  }

  /** An entry among the global first `k` is among the first `k` of every list that has it. */
  lemma FirstInItsList(all: set<Entry>, chosen: set<Entry>, list: set<Entry>, local: set<Entry>, k: nat, e: Entry)
    requires IsFirst(chosen, Grouped(all), k) && IsFirst(local, list, k)
    requires list <= all && e in list && DistinctKeys(list) && e in chosen
    ensures e in local
  {
    if e !in local {
      forall key | key in Keys(local) ensures key in Keys(chosen - {e}) {
        var f :| f in local && f.key == key;
        EarlierKeyChosen(all, chosen, k, e, f);
      }
      SubsetCount(Keys(local), Keys(chosen - {e}));
      KeyCount(local);
      KeyCount(chosen - {e});
      SubsetCount(local + {e}, list);
      assert false;
    }
  }

  lemma GlobalFirstSurvivesCut(lists: seq<set<Entry>>, k: nat)
    requires forall i :: 0 <= i < |lists| ==> DistinctKeys(lists[i])
    ensures First(Grouped(Union(lists)), k) <= Grouped(CutUnion(lists, k))
  {
    forall e | e in First(Grouped(Union(lists)), k) ensures e in Grouped(CutUnion(lists, k)) {
      assert e in Union(lists);
      var i :| 0 <= i < |lists| && e in lists[i];
      FirstInItsList(Union(lists), First(Grouped(Union(lists)), k), lists[i], First(lists[i], k), k, e);
      assert e in CutUnion(lists, k);
      assert CutUnion(lists, k) <= Union(lists);
    }
  }

  /** Cutting each list to `k`, grouping, and cutting again equals one cut of the global order. */
  lemma CutThenMerge(lists: seq<set<Entry>>, k: nat)
    requires forall i :: 0 <= i < |lists| ==> DistinctKeys(lists[i])
    ensures First(Grouped(CutUnion(lists, k)), k) == First(Grouped(Union(lists)), k)
  {
    var all, cut := Union(lists), CutUnion(lists, k);
    var chosen, grouped := First(Grouped(all), k), Grouped(cut);
    assert cut <= all;
    GlobalFirstSurvivesCut(lists, k);
    forall a, b | a in chosen && b in grouped && b !in chosen ensures Less(a, b) {
      var g := LeastOfGroup(all, b);
      if g !in chosen {
        assert Less(a, g);
      }
    }
    GroupedKeys(all);
    GroupedKeys(cut);
    SubsetCount(Keys(cut), Keys(all));
    SubsetCount(chosen, grouped);
    FirstUnique(chosen, First(grouped, k), grouped, k);
  }
}
