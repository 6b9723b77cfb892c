/** The per-file statistics over action-outcome pairs and their totals
    over a directory: the orders and the incomplete orders among them
    (`get_orders_incompletes`), the orders that completed right after a
    dispensing warning (`get_self_resolved`), and the summation of
    `get_dir_stats`. */
module Stats {
  import opened Text
  import opened LogParser
  import opened Correlator

  /** The result label of an order stopped by a dispensing warning. */
  const DISPENSING_WARNING := "stopped - dispensing warning"

  predicate IsOrder(action: string)
  {
    action == "ordered" || action == "retry order"
  }

  /** An order whose result mentions a stop. */
  predicate IsIncomplete(p: Pair)
  {
    IsOrder(p.action) && Contains(p.result, "stopped")
  }

  // ---------------------------------------------------------------------
  // get_orders_incompletes

  /** The number of order pairs. */
  function OrderCount(pairs: seq<Pair>): nat
  {
    if |pairs| == 0 then 0
    else OrderCount(pairs[..|pairs| - 1]) + (if IsOrder(pairs[|pairs| - 1].action) then 1 else 0)
  }

  /** The number of incomplete order pairs. */
  function IncompleteCount(pairs: seq<Pair>): nat
  {
    if |pairs| == 0 then 0
    else IncompleteCount(pairs[..|pairs| - 1]) + (if IsIncomplete(pairs[|pairs| - 1]) then 1 else 0)
  }

  /** `get_orders_incompletes`. */
  method GetOrdersIncompletes(pairs: seq<Pair>) returns (numOrders: nat, numIncomplete: nat)
    ensures numOrders == OrderCount(pairs) && numIncomplete == IncompleteCount(pairs)
  {
    numOrders, numIncomplete := 0, 0;
    for k := 0 to |pairs|
      invariant numOrders == OrderCount(pairs[..k]) && numIncomplete == IncompleteCount(pairs[..k])
    {
      assert pairs[..k + 1][..k] == pairs[..k];
      var p := pairs[k];
      if IsOrder(p.action) {
        numOrders := numOrders + 1;
        if Contains(p.result, "stopped") {
          numIncomplete := numIncomplete + 1;
        }
      }
    }
    assert pairs[..|pairs|] == pairs;
  }

  /** Incomplete orders are orders, and there are no more orders than pairs. */
  lemma {:induction false} CountBounds(pairs: seq<Pair>)
    ensures IncompleteCount(pairs) <= OrderCount(pairs) <= |pairs|
    decreases |pairs|
  {
    if |pairs| > 0 {
      CountBounds(pairs[..|pairs| - 1]);
    }
  }

  /** The counts of a list split in two are the sums of the parts' counts. */
  lemma {:induction false} CountsAppend(a: seq<Pair>, b: seq<Pair>)
    ensures OrderCount(a + b) == OrderCount(a) + OrderCount(b)
    ensures IncompleteCount(a + b) == IncompleteCount(a) + IncompleteCount(b)
    decreases |b|
  {
    if |b| > 0 {
      var n := |b| - 1;
      assert (a + b)[..|a + b| - 1] == a + b[..n];
      CountsAppend(a, b[..n]);
    } else {
      assert a + b == a;
    }
  }

  /** Only orders are counted: pairs of other actions can be removed or
      added without changing either count. */
  lemma CountsIgnoreOtherActions(pairs: seq<Pair>, p: Pair)
    requires !IsOrder(p.action)
    ensures OrderCount(pairs + [p]) == OrderCount(pairs)
    ensures IncompleteCount(pairs + [p]) == IncompleteCount(pairs)
  {
    assert (pairs + [p])[..|pairs|] == pairs;
  }

  /** For a pair of an order with an outcome entry, the result mentions
      a stop exactly when the outcome is a stopped entry; with the default
      outcomes, the incomplete orders are the orders that were stopped. */
  lemma IncompleteMeansStopped(entries: seq<Entry>, a: nat, j: nat)
    requires a < |entries| && j < |entries| && entries[j].kind in DEFAULT_OUTCOMES
    requires entries[j].kind == "stopped" ==> entries[j].detail.Some?
    ensures Contains(PairAt(entries, a, j).result, "stopped") <==> entries[j].kind == "stopped"
  {
    var r := PairAt(entries, a, j).result;
    if entries[j].kind == "stopped" {
      assert OccursAt(r, "stopped", 0);
    } else {
      OtherOutcomesAreNotStops(r);
    }
  }

  /** The two default outcome labels other than a stop do not contain "stopped". */
  lemma OtherOutcomesAreNotStops(r: string)
    requires r == "completed" || r == "finished fill"
    ensures !Contains(r, "stopped")
  {
    if r == "completed" {
      AbsentCharacter(r, "stopped", 's');
    } else {
      AbsentCharacter(r, "stopped", 'p');
    }
  }

  // ---------------------------------------------------------------------
  // get_self_resolved

  /** Pair `k` is an order that completed right after a pair stopped by a
      dispensing warning. */
  predicate ResolvedAt(pairs: seq<Pair>, k: nat)
    requires 1 <= k < |pairs|
  {
    pairs[k - 1].result == DISPENSING_WARNING && IsOrder(pairs[k].action) && pairs[k].result == "completed"
  }

  /** The number of positions `1 <= k < n` at which an order self-resolved. */
  function SelfResolvedCount(pairs: seq<Pair>, n: nat): nat
    requires n <= |pairs|
  {
    if n <= 1 then 0
    else SelfResolvedCount(pairs, n - 1) + (if ResolvedAt(pairs, n - 1) then 1 else 0)
  }

  /** `get_self_resolved`; the program reads the first pair without a
      check, so the list must not be empty. */
  method GetSelfResolved(pairs: seq<Pair>) returns (selfResolved: nat)
    requires |pairs| >= 1
    ensures selfResolved == SelfResolvedCount(pairs, |pairs|)
  {
    var prevResult := pairs[0].result;
    selfResolved := 0;
    for k := 1 to |pairs|
      invariant prevResult == pairs[k - 1].result
      invariant selfResolved == SelfResolvedCount(pairs, k)
    {
      var p := pairs[k];
      if prevResult == DISPENSING_WARNING && IsOrder(p.action) && p.result == "completed" {
        selfResolved := selfResolved + 1;
      }
      prevResult := p.result;
    }
  }

  /** At most one self-resolution per pair after the first; none with a
      single pair. */
  lemma {:induction false} SelfResolvedBound(pairs: seq<Pair>, n: nat)
    requires 1 <= n <= |pairs|
    ensures SelfResolvedCount(pairs, n) <= n - 1
    decreases n
  {
    if n > 1 {
      SelfResolvedBound(pairs, n - 1);
    }
  }

  /** A self-resolved order is one of the orders, and a completed one:
      the self-resolutions never outnumber the complete orders. */
  lemma {:induction false} SelfResolvedAreCompleteOrders(pairs: seq<Pair>, n: nat)
    requires n <= |pairs|
    ensures SelfResolvedCount(pairs, n) + IncompleteCount(pairs[..n]) <= OrderCount(pairs[..n])
    decreases n
  {
    if n > 0 {
      SelfResolvedAreCompleteOrders(pairs, n - 1);
      assert pairs[..n][..n - 1] == pairs[..n - 1];
      if n > 1 && ResolvedAt(pairs, n - 1) {
        OtherOutcomesAreNotStops(pairs[n - 1].result);
      }
    }
  }

  /** The count is the number of positions `1 <= k < n` where an order
      self-resolved. */
  lemma {:induction false} SelfResolvedIsCardinality(pairs: seq<Pair>, n: nat)
    requires n <= |pairs|
    ensures SelfResolvedCount(pairs, n) == |set k | 1 <= k < n && ResolvedAt(pairs, k)|
    decreases n
  {
    if n > 1 {
      SelfResolvedIsCardinality(pairs, n - 1);
      var before := set k | 1 <= k < n - 1 && ResolvedAt(pairs, k);
      var now := set k | 1 <= k < n && ResolvedAt(pairs, k);
      if ResolvedAt(pairs, n - 1) {
        assert now == before + {n - 1};
      } else {
        assert now == before;
      }
    }
  }

  /** The order count is the number of positions holding an order. */
  lemma {:induction false} OrderCountIsCardinality(pairs: seq<Pair>)
    ensures OrderCount(pairs) == |set k | 0 <= k < |pairs| && IsOrder(pairs[k].action)|
  {
    OrderCountOfPrefix(pairs, |pairs|);
    assert pairs[..|pairs|] == pairs;
  }

  lemma {:induction false} OrderCountOfPrefix(pairs: seq<Pair>, n: nat)
    requires n <= |pairs|
    ensures OrderCount(pairs[..n]) == |set k | 0 <= k < n && IsOrder(pairs[k].action)|
    decreases n
  {
    var now := set k | 0 <= k < n && IsOrder(pairs[k].action);
    if n == 0 {
      assert now == {};
    } else {
      OrderCountOfPrefix(pairs, n - 1);
      assert pairs[..n][..n - 1] == pairs[..n - 1];
      var before := set k | 0 <= k < n - 1 && IsOrder(pairs[k].action);
      if IsOrder(pairs[n - 1].action) {
        assert now == before + {n - 1};
      } else {
        assert now == before;
      }
    }
  }

  /** Every position where an order self-resolved is counted, and only those. */
  lemma {:induction false} SelfResolvedExact(pairs: seq<Pair>, n: nat)
    requires n <= |pairs|
    ensures SelfResolvedCount(pairs, n) == 0 <==> forall k :: 1 <= k < n ==> !ResolvedAt(pairs, k)
    decreases n
  {
    if n > 1 {
      SelfResolvedExact(pairs, n - 1);
    }
  }

  // ---------------------------------------------------------------------
  // get_dir_stats

  /** A parsed log file: its name and its kept entries. */
  datatype LogFile = LogFile(name: string, entries: seq<Entry>)

  /** One row of the per-file statistics. */
  datatype FileStats = FileStats(filename: string, numOrders: nat, numIncomplete: nat, selfResolved: nat)

  /** What the per-file steps of `get_dir_stats` need: the pairs can be
      built, and there is at least one of them. */
  predicate Summarizable(f: LogFile)
  {
    && WellFormedWindows(f.entries, ActionPositions(f.entries), DEFAULT_OUTCOMES)
    && |ActionResultsSpec(f.entries, ActionPositions(f.entries), DEFAULT_OUTCOMES)| >= 1
  }

  /** The action-outcome pairs of a file. */
  function PairsOf(f: LogFile): seq<Pair>
    requires WellFormedWindows(f.entries, ActionPositions(f.entries), DEFAULT_OUTCOMES)
  {
    ActionResultsSpec(f.entries, ActionPositions(f.entries), DEFAULT_OUTCOMES)
  }

  /** The statistics row of a file. */
  function StatsOf(f: LogFile): (s: FileStats)
    requires Summarizable(f)
    ensures s.filename == f.name
    ensures s.numIncomplete <= s.numOrders <= |PairsOf(f)|
    ensures s.selfResolved <= |PairsOf(f)| - 1
  {
    var pairs := PairsOf(f);
    CountBounds(pairs);
    SelfResolvedBound(pairs, |pairs|);
    FileStats(f.name, OrderCount(pairs), IncompleteCount(pairs), SelfResolvedCount(pairs, |pairs|))
  }

  function TotalOrders(rows: seq<FileStats>): nat
  {
    if |rows| == 0 then 0 else TotalOrders(rows[..|rows| - 1]) + rows[|rows| - 1].numOrders
  }

  function TotalIncomplete(rows: seq<FileStats>): nat
  {
    if |rows| == 0 then 0 else TotalIncomplete(rows[..|rows| - 1]) + rows[|rows| - 1].numIncomplete
  }

  function TotalSelfResolved(rows: seq<FileStats>): nat
  {
    if |rows| == 0 then 0 else TotalSelfResolved(rows[..|rows| - 1]) + rows[|rows| - 1].selfResolved
  }

  /** The body of the loop of `get_dir_stats` for one file: its pairs,
      then its counts. */
  method FileRow(f: LogFile) returns (row: FileStats)
    requires Summarizable(f)
    ensures row == StatsOf(f)
  {
    var actionInds := GetActions(f.entries);
    var pairs := ActionResults(f.entries, actionInds, DEFAULT_OUTCOMES);
    var numOrders, numIncomplete := GetOrdersIncompletes(pairs);
    var selfResolved := GetSelfResolved(pairs);
    row := FileStats(f.name, numOrders, numIncomplete, selfResolved);
  }

  /** Adding a row adds its columns to the totals. */
  lemma TotalsSnoc(rows: seq<FileStats>, row: FileStats)
    ensures TotalOrders(rows + [row]) == TotalOrders(rows) + row.numOrders
    ensures TotalIncomplete(rows + [row]) == TotalIncomplete(rows) + row.numIncomplete
    ensures TotalSelfResolved(rows + [row]) == TotalSelfResolved(rows) + row.selfResolved
  {
    assert (rows + [row])[..|rows|] == rows;
  }

  /** The rows of a sequence of files, one per file, in order. */
  function Rows(files: seq<LogFile>): (rows: seq<FileStats>)
    requires forall i :: 0 <= i < |files| ==> Summarizable(files[i])
    ensures |rows| == |files|
  {
    if |files| == 0 then [] else Rows(files[..|files| - 1]) + [StatsOf(files[|files| - 1])]
  }

  /** `get_dir_stats`: one row per file, in order, and the three totals,
      each the sum of its column. */
  method GetDirStats(files: seq<LogFile>)
    returns (totalOrders: nat, totalIncomplete: nat, totalSelfResolved: nat, rows: seq<FileStats>)
    requires forall i :: 0 <= i < |files| ==> Summarizable(files[i])
    ensures rows == Rows(files)
    ensures totalOrders == TotalOrders(rows)
    ensures totalIncomplete == TotalIncomplete(rows)
    ensures totalSelfResolved == TotalSelfResolved(rows)
  {
    totalOrders, totalIncomplete, totalSelfResolved := 0, 0, 0;
    rows := [];
    for i := 0 to |files|
      invariant rows == Rows(files[..i])
      invariant totalOrders == TotalOrders(rows)
      invariant totalIncomplete == TotalIncomplete(rows)
      invariant totalSelfResolved == TotalSelfResolved(rows)
    {
      var row := FileRow(files[i]);
      totalOrders := totalOrders + row.numOrders;
      totalIncomplete := totalIncomplete + row.numIncomplete;
      totalSelfResolved := totalSelfResolved + row.selfResolved;
      TotalsSnoc(rows, row);
      assert files[..i + 1][..i] == files[..i];
      rows := rows + [row];
    }
    assert files[..|files|] == files;
  }

  /** The rows are the files' statistics, position by position. */
  lemma {:induction false} RowsExact(files: seq<LogFile>)
    requires forall i :: 0 <= i < |files| ==> Summarizable(files[i])
    ensures forall i :: 0 <= i < |files| ==> Rows(files)[i] == StatsOf(files[i])
    decreases |files|
  {
    if |files| > 0 {
      var n := |files| - 1;
      RowsExact(files[..n]);
    }
  }

  /** The totals of two groups of files are the sums of the groups' totals,
      so they do not depend on how the files are grouped. */
  lemma {:induction false} TotalsAppend(a: seq<FileStats>, b: seq<FileStats>)
    ensures TotalOrders(a + b) == TotalOrders(a) + TotalOrders(b)
    ensures TotalIncomplete(a + b) == TotalIncomplete(a) + TotalIncomplete(b)
    ensures TotalSelfResolved(a + b) == TotalSelfResolved(a) + TotalSelfResolved(b)
    decreases |b|
  {
    if |b| > 0 {
      var n := |b| - 1;
      assert (a + b)[..|a + b| - 1] == a + b[..n];
      TotalsAppend(a, b[..n]);
    } else {
      assert a + b == a;
    }
  }

  /** Over rows whose incomplete count is bounded by their order count,
      the total incomplete is bounded by the total orders. */
  lemma {:induction false} TotalsBounded(rows: seq<FileStats>)
    requires forall i :: 0 <= i < |rows| ==> rows[i].numIncomplete <= rows[i].numOrders
    ensures TotalIncomplete(rows) <= TotalOrders(rows)
    decreases |rows|
  {
    if |rows| > 0 {
      TotalsBounded(rows[..|rows| - 1]);
    }
  }

  /** An order stopped by a dispensing warning, then a retried order that
      completed: two orders, one incomplete, one self-resolved. */
  lemma CountsExample(p0: Pair, p1: Pair)
    requires p0 == Pair("ordered", 1, DISPENSING_WARNING, 2)
    requires p1 == Pair("retry order", 3, "completed", 4)
    ensures OrderCount([p0, p1]) == 2 && IncompleteCount([p0, p1]) == 1
    ensures SelfResolvedCount([p0, p1], 2) == 1
  {
    var pairs := [p0, p1];
    assert pairs[..1] == [p0] && pairs[..1][..0] == [];
    assert OrderCount([p0]) == 1;
    assert OccursAt(p0.result, "stopped", 0);
    assert IncompleteCount([p0]) == 1;
    OtherOutcomesAreNotStops(p1.result);
    assert !IsIncomplete(p1);
  }
}
