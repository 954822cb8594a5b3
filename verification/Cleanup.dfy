/**
 Bounded cleanup of terminal rows (src/operations/maintenance.ts). The statement takes at most one
 batch from every independently indexed branch, groups the candidates by key with their smallest
 terminal time, and takes one batch of those. It deletes what a single global ordering would.
 */
module Cleanup {
  import opened Arithmetic
  import opened Wrappers
  import opened Selection

  /** A branch's terminal time for a row that satisfies its predicate, and nothing otherwise. */
  type Branch<!Row> = Row -> Option<int>

  function Matches<Row>(rows: map<RowKey, Row>, branch: Branch<Row>): set<Entry> {
    set k | k in rows && branch(rows[k]).Some? :: Entry(branch(rows[k]).value, k)
  }

  function Lists<Row>(rows: map<RowKey, Row>, branches: seq<Branch<Row>>): (lists: seq<set<Entry>>)
    ensures |lists| == |branches|
    ensures forall i :: 0 <= i < |branches| ==> lists[i] == Matches(rows, branches[i])
  {
    seq(|branches|, i requires 0 <= i < |branches| => Matches(rows, branches[i]))
  }

  /** The entries the cleanup statement selects for deletion. */
  function Selected<Row>(rows: map<RowKey, Row>, branches: seq<Branch<Row>>, limit: nat): set<Entry> {
    First(Grouped(CutUnion(Lists(rows, branches), limit)), limit)
  }

  /** The simple form: every matching row once, at its smallest terminal time over all branches. */
  function Terminal<Row>(rows: map<RowKey, Row>, branches: seq<Branch<Row>>): set<Entry> {
    Grouped(Union(Lists(rows, branches)))
  }

  /** The keys of all rows that match some branch. */
  function MatchingKeys<Row>(rows: map<RowKey, Row>, branches: seq<Branch<Row>>): set<RowKey> {
    set k | k in rows && exists i :: 0 <= i < |branches| && branches[i](rows[k]).Some?
  }

  /** For every table, all branches and every batch size the statement selects the global first batch. */
  lemma SelectedIsGlobalFirst<Row>(rows: map<RowKey, Row>, branches: seq<Branch<Row>>, limit: nat)
    ensures Selected(rows, branches, limit) == First(Terminal(rows, branches), limit)
  {
    CutThenMerge(Lists(rows, branches), limit);
  }

  lemma TerminalKeys<Row>(rows: map<RowKey, Row>, branches: seq<Branch<Row>>)
    ensures Keys(Terminal(rows, branches)) == MatchingKeys(rows, branches)
    ensures DistinctKeys(Terminal(rows, branches))
    ensures |Terminal(rows, branches)| == |MatchingKeys(rows, branches)|
  {
    var all := Union(Lists(rows, branches));
    GroupedKeys(all);
    forall k | k in MatchingKeys(rows, branches) ensures k in Keys(all) {
      var i :| 0 <= i < |branches| && branches[i](rows[k]).Some?;
      var e := Entry(branches[i](rows[k]).value, k);
      assert e in Lists(rows, branches)[i];
      assert e in all;
    }
  }

  lemma MatchesAfter<Row>(rows: map<RowKey, Row>, branch: Branch<Row>, gone: set<RowKey>, e: Entry)
    ensures e in Matches(rows - gone, branch) <==> e in Matches(rows, branch) && e.key !in gone
  {
    if e in Matches(rows, branch) && e.key !in gone {
      assert e.key in rows - gone && (rows - gone)[e.key] == rows[e.key];
    }
  }

  lemma UnionAfter<Row>(rows: map<RowKey, Row>, branches: seq<Branch<Row>>, gone: set<RowKey>, e: Entry)
    ensures e in Union(Lists(rows - gone, branches)) <==> e in Union(Lists(rows, branches)) && e.key !in gone
  {
    forall i | 0 <= i < |branches|
      ensures e in Lists(rows - gone, branches)[i] <==> e in Lists(rows, branches)[i] && e.key !in gone
    {
      MatchesAfter(rows, branches[i], gone, e);
    }
  }

  /** Deleting selected rows leaves the order of the others as it was. */
  lemma TerminalAfter<Row>(rows: map<RowKey, Row>, branches: seq<Branch<Row>>, f: set<Entry>)
    requires f <= Terminal(rows, branches)
    ensures Terminal(rows - Keys(f), branches) == Terminal(rows, branches) - f
  {
    forall e ensures e in Union(Lists(rows - Keys(f), branches))
                     <==> e in Union(Lists(rows, branches)) && e.key !in Keys(f) {
      UnionAfter(rows, branches, Keys(f), e);
    }
    GroupedKeys(Union(Lists(rows, branches)));
  }

  class Table<Row(!new)> {
    var rows: map<RowKey, Row>

    constructor (rows: map<RowKey, Row>)
      ensures this.rows == rows
    {
      this.rows := rows;
    }

    /** One run of the cleanup statement; the number of deleted rows is what D1 reports. */
    method DeleteBatch(branches: seq<Branch<Row>>, limit: nat) returns (changes: nat)
      modifies this
      ensures rows == old(rows) - Keys(First(Terminal(old(rows), branches), limit))
      ensures changes == |First(Terminal(old(rows), branches), limit)|
    {
      var selected := Selected(rows, branches, limit);
      SelectedIsGlobalFirst(rows, branches, limit);
      TerminalKeys(rows, branches);
      KeyCount(selected);
      changes := |Keys(selected)|;
      rows := rows - Keys(selected);
    }

    /**
     The deletion loop: at most `rounds` batches, stopping after a short one. It removes exactly
     the first rounds * limit rows of the global order, and if it removed fewer than that, no
     matching row is left.
     */
    method DeleteInRounds(branches: seq<Branch<Row>>, limit: nat, rounds: nat) returns (deleted: nat)
      modifies this
      ensures rows == old(rows) - Keys(First(Terminal(old(rows), branches), rounds * limit))
      ensures deleted == Min(rounds * limit, |MatchingKeys(old(rows), branches)|)
      ensures deleted < rounds * limit ==> MatchingKeys(rows, branches) == {}
    {
      deleted := 0;
      var batch, more := 0, true;
      ghost var start := rows;
      ghost var order := Terminal(start, branches);
      ghost var drawn: nat := 0;
      ghost var taken := First(order, drawn);
      while batch < rounds && more
        invariant 0 <= batch <= rounds
        invariant drawn == batch * limit && taken == First(order, drawn)
        invariant rows == start - Keys(taken)
        invariant deleted == |taken|
        invariant !more ==> taken == order
        decreases rounds - batch
      {
        var changes := DeleteBatch(branches, limit);
        taken := AfterBatch(start, branches, drawn, limit, taken, rows, changes);
        OneMoreBatch(batch, limit);
        drawn := drawn + limit;
        deleted := deleted + changes;
        batch := batch + 1;
        more := changes >= limit;
      }
      LoopEnd(start, branches, taken, batch, rounds, limit);
    }
  }

  lemma OneMoreBatch(batch: nat, limit: nat)
    ensures (batch + 1) * limit == batch * limit + limit
  {
  }

  lemma ExtendTaken(order: set<Entry>, drawn: nat, limit: nat, taken: set<Entry>, batch: set<Entry>)
    requires taken == First(order, drawn) && batch == First(order - taken, limit)
    ensures taken + batch == First(order, drawn + limit)
    ensures |taken + batch| == |taken| + |batch|
    ensures Keys(taken + batch) == Keys(taken) + Keys(batch)
    ensures |batch| < limit ==> taken + batch == order
  {
    FirstTwice(order, drawn, limit);
    if |batch| < limit {
      FirstAll(order - taken, limit);
    }
  }

  lemma MinusTwice<Row>(m: map<RowKey, Row>, a: set<RowKey>, b: set<RowKey>)
    ensures m - a - b == m - (a + b)
  {
  }

  /** One more batch extends what has been taken of the global order, and a short one completes it. */
  lemma AfterBatch<Row>(start: map<RowKey, Row>, branches: seq<Branch<Row>>, drawn: nat, limit: nat,
                        taken: set<Entry>, rows: map<RowKey, Row>, changes: nat)
    returns (next: set<Entry>)
    requires taken == First(Terminal(start, branches), drawn)
    requires var batch := First(Terminal(start - Keys(taken), branches), limit);
             rows == start - Keys(taken) - Keys(batch) && changes == |batch|
    ensures next == First(Terminal(start, branches), drawn + limit)
    ensures rows == start - Keys(next) && |next| == |taken| + changes
    ensures changes < limit ==> next == Terminal(start, branches)
  {
    var order := Terminal(start, branches);
    TerminalAfter(start, branches, taken);
    var batch := First(order - taken, limit);
    ExtendTaken(order, drawn, limit, taken, batch);
    next := taken + batch;
    MinusTwice(start, Keys(taken), Keys(batch));
  }

  lemma LoopEnd<Row>(rows: map<RowKey, Row>, branches: seq<Branch<Row>>, taken: set<Entry>,
                     batch: nat, rounds: nat, limit: nat)
    requires taken == First(Terminal(rows, branches), batch * limit) && batch <= rounds
    requires batch < rounds ==> taken == Terminal(rows, branches)
    ensures taken == First(Terminal(rows, branches), rounds * limit)
    ensures |taken| == Min(rounds * limit, |MatchingKeys(rows, branches)|)
    ensures |taken| < rounds * limit ==> MatchingKeys(rows - Keys(taken), branches) == {}
  {
    var order := Terminal(rows, branches);
    TerminalKeys(rows, branches);
    var bound := rounds * limit;
    if batch < rounds {
      assert batch * limit <= bound;
      AllTaken(order, batch * limit, bound);
    }
    AllGone(rows, branches, bound);
  }

  lemma AllTaken(order: set<Entry>, drawn: nat, bound: nat)
    requires First(order, drawn) == order && drawn <= bound
    ensures First(order, bound) == order
  {
    FirstAll(order, bound);
  }

  lemma AllGone<Row>(rows: map<RowKey, Row>, branches: seq<Branch<Row>>, bound: nat)
    ensures var taken := First(Terminal(rows, branches), bound);
            && |taken| == Min(bound, |MatchingKeys(rows, branches)|)
            && (|taken| < bound ==> MatchingKeys(rows - Keys(taken), branches) == {})
  {
    var order := Terminal(rows, branches);
    var taken := First(order, bound);
    TerminalKeys(rows, branches);
    if |taken| < bound {
      FirstAll(order, bound);
      TerminalAfter(rows, branches, taken);
      TerminalKeys(rows - Keys(taken), branches);
    }
  }

  /** With one branch, as for expired audit rows, the statement is the plain ordered LIMIT. */
  lemma SingleBranch<Row>(rows: map<RowKey, Row>, branch: Branch<Row>, limit: nat)
    ensures Selected(rows, [branch], limit) == First(Matches(rows, branch), limit)
  {
    SelectedIsGlobalFirst(rows, [branch], limit);
    var lists := Lists(rows, [branch]);
    assert Union(lists) == lists[0];
    GroupedDistinct(lists[0]);
  }

  // ---- Row by row ------------------------------------------------------------------

  /** Some branch matches the row with this terminal time. */
  predicate MatchesAt<Row>(branches: seq<Branch<Row>>, row: Row, at: int) {
    exists i :: 0 <= i < |branches| && branches[i](row) == Some(at)
  }

  /** A row's entry carries its smallest terminal time over the branches that match it. */
  lemma TerminalIsExact<Row>(rows: map<RowKey, Row>, branches: seq<Branch<Row>>, e: Entry)
    ensures e in Terminal(rows, branches) <==>
            && e.key in rows && MatchesAt(branches, rows[e.key], e.at)
            && forall i :: 0 <= i < |branches| && branches[i](rows[e.key]).Some? ==> e.at <= branches[i](rows[e.key]).value
  {
    forall d ensures d in Union(Lists(rows, branches)) <==> d.key in rows && MatchesAt(branches, rows[d.key], d.at) {
      UnionIsExact(rows, branches, d);
    }
    if e.key in rows {
      forall i | 0 <= i < |branches| && branches[i](rows[e.key]).Some?
        ensures Entry(branches[i](rows[e.key]).value, e.key) in Union(Lists(rows, branches))
      {
        assert MatchesAt(branches, rows[e.key], branches[i](rows[e.key]).value);
      }
    }
  }

  lemma UnionIsExact<Row>(rows: map<RowKey, Row>, branches: seq<Branch<Row>>, d: Entry)
    ensures d in Union(Lists(rows, branches)) <==> d.key in rows && MatchesAt(branches, rows[d.key], d.at)
  {
    var lists := Lists(rows, branches);
    if d.key in rows && MatchesAt(branches, rows[d.key], d.at) {
      var i :| 0 <= i < |branches| && branches[i](rows[d.key]) == Some(d.at);
      assert d in lists[i];
    }
    if d in Union(lists) {
      var i :| 0 <= i < |lists| && d in lists[i];
    }
  }

  lemma FirstGoFirst(all: set<Entry>, limit: nat, gone: Entry, kept: Entry)
    requires gone in First(all, limit) && kept in all && kept !in First(all, limit)
    ensures gone.at < kept.at || (gone.at == kept.at && gone.key < kept.key)
    ensures |First(all, limit)| == limit
  {
    if |First(all, limit)| < limit {
      FirstAll(all, limit);
    }
  }

  /** What a batch takes ended before everything it leaves, or has the smaller key; and it is full if it leaves anything. */
  lemma OldestGoFirst<Row>(rows: map<RowKey, Row>, branches: seq<Branch<Row>>, limit: nat, gone: Entry, kept: Entry)
    requires gone in Selected(rows, branches, limit)
    requires kept in Terminal(rows, branches) && kept !in Selected(rows, branches, limit)
    ensures gone.at < kept.at || (gone.at == kept.at && gone.key < kept.key)
    ensures |Selected(rows, branches, limit)| == limit
  {
    SelectedIsGlobalFirst(rows, branches, limit);
    FirstGoFirst(Terminal(rows, branches), limit, gone, kept);
  }
}
