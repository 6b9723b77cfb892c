/** Pairing user actions with the outcomes that follow them: `get_actions`
    finds the positions of the user actions among the kept entries of a
    file, and `action_results` pairs each action with every outcome entry
    strictly between it and the next action. */
module Correlator {
  import opened Wrappers
  import opened Text
  import opened LogParser

  /** The kinds that count as user actions. */
  const ACTIONS: set<string> :=
    {"ordered", "retry order", "selected fill tube", "selected cleaning", "requested customer service"}

  /** The outcome kinds `action_results` uses when the caller names none. */
  const DEFAULT_OUTCOMES: set<string> := {"stopped", "completed", "finished fill"}

  predicate IsAction(kind: string)
  {
    kind in ACTIONS
  }

  /** One action-outcome pair: the action's kind and line number, the
      outcome's label and line number. */
  datatype Pair = Pair(action: string, actionLine: nat, result: string, resultLine: nat)

  // ---------------------------------------------------------------------
  // get_actions

  /** The positions of the action entries, in increasing order. */
  function ActionPositions(entries: seq<Entry>): seq<nat>
  {
    if |entries| == 0 then []
    else
      var n := |entries| - 1;
      ActionPositions(entries[..n]) + (if IsAction(entries[n].kind) then [n] else [])
  }

  predicate StrictlyIncreasing(s: seq<nat>)
  {
    forall k, l :: 0 <= k < l < |s| ==> s[k] < s[l]
  }

  /** The positions are strictly increasing, lie inside the entries, and
      are exactly those whose kind is an action. */
  lemma {:induction false} ActionPositionsExact(entries: seq<Entry>)
    ensures var r := ActionPositions(entries);
            && StrictlyIncreasing(r)
            && (forall k :: 0 <= k < |r| ==> r[k] < |entries|)
            && (forall i :: 0 <= i < |entries| ==> (i in r <==> IsAction(entries[i].kind)))
    decreases |entries|
  {
    if |entries| > 0 {
      var n := |entries| - 1;
      ActionPositionsExact(entries[..n]);
      assert forall i :: 0 <= i < n ==> entries[..n][i] == entries[i];
    }
  }

  /** `get_actions`: the positions of the user actions. */
  method GetActions(entries: seq<Entry>) returns (inds: seq<nat>)
    ensures inds == ActionPositions(entries)
  {
    inds := [];
    for i := 0 to |entries|
      invariant inds == ActionPositions(entries[..i])
    {
      assert entries[..i + 1][..i] == entries[..i];
      if IsAction(entries[i].kind) {
        inds := inds + [i];
      }
    }
    assert entries[..|entries|] == entries;
  }

  // ---------------------------------------------------------------------
  // action_results

  /** `"stopped" in outcomes` makes every stopped entry of positions
      `lo..hi` need a reason, since its label is built from it. */
  predicate ReasonsIn(entries: seq<Entry>, outcomes: set<string>, lo: nat, hi: nat)
  {
    "stopped" in outcomes ==>
      forall j :: lo <= j < hi && j < |entries| && entries[j].kind == "stopped" ==> entries[j].detail.Some?
  }

  /** What `action_results` needs of its input to run without an index
      error: every action but the last lies inside the entries, every
      window it reads lies inside them, and every stopped outcome in a
      window carries its reason. */
  predicate WellFormedWindows(entries: seq<Entry>, inds: seq<nat>, outcomes: set<string>)
  {
    forall i :: 0 <= i < |inds| - 1 ==>
      && inds[i] < |entries|
      && (inds[i + 1] <= |entries| || inds[i + 1] <= inds[i] + 1)
      && ReasonsIn(entries, outcomes, inds[i] + 1, inds[i + 1])
  }

  /** The label of an outcome entry: its kind, followed by the separator
      and the reason for a stopped entry. */
  function OutcomeLabel(e: Entry): (r: string)
    requires e.kind == "stopped" ==> e.detail.Some?
    ensures StartsWith(r, e.kind)
    ensures e.kind == "stopped" ==> r == "stopped - " + e.detail.value
    ensures e.kind != "stopped" ==> r == e.kind
  {
    if e.kind == "stopped" then e.kind + SEPARATOR + e.detail.value else e.kind
  }

  /** The pair made of the action at position `a` and the outcome at position `j`. */
  function PairAt(entries: seq<Entry>, a: nat, j: nat): Pair
    requires a < |entries| && j < |entries|
    requires entries[j].kind == "stopped" ==> entries[j].detail.Some?
  {
    Pair(entries[a].kind, entries[a].index, OutcomeLabel(entries[j]), entries[j].index)
  }

  /** The pairs of the action at position `a` with the outcomes at positions `lo..hi`. */
  function WindowPairs(entries: seq<Entry>, outcomes: set<string>, a: nat, lo: nat, hi: nat): seq<Pair>
    requires a < |entries| && (hi <= |entries| || hi <= lo) && ReasonsIn(entries, outcomes, lo, hi)
    decreases hi
  {
    if hi <= lo then []
    else
      WindowPairs(entries, outcomes, a, lo, hi - 1)
      + (if entries[hi - 1].kind in outcomes then [PairAt(entries, a, hi - 1)] else [])
  }

  /** The pairs of the first `n` windows, window `i` lying between action
      `i` and action `i + 1`. */
  function Correlate(entries: seq<Entry>, inds: seq<nat>, outcomes: set<string>, n: nat): seq<Pair>
    requires n < |inds| && WellFormedWindows(entries, inds, outcomes)
  {
    if n == 0 then []
    else
      Correlate(entries, inds, outcomes, n - 1)
      + WindowPairs(entries, outcomes, inds[n - 1], inds[n - 1] + 1, inds[n])
  }

  /** What `action_results` returns. */
  function ActionResultsSpec(entries: seq<Entry>, inds: seq<nat>, outcomes: set<string>): seq<Pair>
    requires WellFormedWindows(entries, inds, outcomes)
  {
    if |inds| < 2 then [] else Correlate(entries, inds, outcomes, |inds| - 1)
  }

  /** `action_results`: for every action but the last, the pairs with the
      outcomes up to the next action. */
  method ActionResults(entries: seq<Entry>, inds: seq<nat>, outcomes: set<string>) returns (events: seq<Pair>)
    requires WellFormedWindows(entries, inds, outcomes)
    ensures events == ActionResultsSpec(entries, inds, outcomes)
  {
    events := [];
    var i := 0;
    while i < |inds| - 1
      invariant 0 <= i && (i <= |inds| - 1 || i == 0)
      invariant i < |inds| ==> events == Correlate(entries, inds, outcomes, i)
      invariant |inds| == 0 ==> events == []
    {
      var ind, nextInd := inds[i], inds[i + 1];
      var actionLine, actionType := entries[ind].index, entries[ind].kind;
      var j := ind + 1;
      while j < nextInd
        invariant ind + 1 <= j && (j <= nextInd || j == ind + 1)
        invariant events == Correlate(entries, inds, outcomes, i) + WindowPairs(entries, outcomes, ind, ind + 1, j)
      {
        var e := entries[j];
        if e.kind in outcomes {
          var event := e.kind;
          if event == "stopped" {
            event := event + SEPARATOR + e.detail.value;
          }
          events := events + [Pair(actionType, actionLine, event, e.index)];
        }
        j := j + 1;
      }
      i := i + 1;
    }
  }

  // ---------------------------------------------------------------------
  // Properties of action_results

  /** Position `j` holds an outcome inside window `i`, strictly between
      actions `i` and `i + 1`. */
  predicate Emits(entries: seq<Entry>, inds: seq<nat>, outcomes: set<string>, i: int, j: int)
  {
    0 <= i < |inds| - 1 && inds[i] < j < inds[i + 1] && j < |entries| && entries[j].kind in outcomes
  }

  lemma {:induction false} WindowPairsExact(entries: seq<Entry>, outcomes: set<string>, a: nat, lo: nat, hi: nat)
    requires a < |entries| && (hi <= |entries| || hi <= lo) && ReasonsIn(entries, outcomes, lo, hi)
    ensures forall p :: p in WindowPairs(entries, outcomes, a, lo, hi) ==>
              exists j :: lo <= j < hi && j < |entries| && entries[j].kind in outcomes && p == PairAt(entries, a, j)
    ensures forall j :: lo <= j < hi && j < |entries| && entries[j].kind in outcomes ==>
              PairAt(entries, a, j) in WindowPairs(entries, outcomes, a, lo, hi)
    decreases hi
  {
    if hi > lo {
      WindowPairsExact(entries, outcomes, a, lo, hi - 1);
    }
  }

  lemma {:induction false} CorrelateExact(entries: seq<Entry>, inds: seq<nat>, outcomes: set<string>, n: nat)
    requires n < |inds| && WellFormedWindows(entries, inds, outcomes)
    ensures forall p :: p in Correlate(entries, inds, outcomes, n) ==>
              exists i, j :: i < n && Emits(entries, inds, outcomes, i, j) && p == PairAt(entries, inds[i], j)
    ensures forall i, j :: i < n && Emits(entries, inds, outcomes, i, j) ==>
              PairAt(entries, inds[i], j) in Correlate(entries, inds, outcomes, n)
  {
    if n > 0 {
      CorrelateExact(entries, inds, outcomes, n - 1);
      WindowPairsExact(entries, outcomes, inds[n - 1], inds[n - 1] + 1, inds[n]);
    }
  }

  /** Every emitted pair joins an action with an outcome lying strictly
      between it and the next action, and every such outcome is paired;
      in particular the last action, and an input with fewer than two
      actions, gives no pairs. */
  lemma ActionResultsExact(entries: seq<Entry>, inds: seq<nat>, outcomes: set<string>)
    requires WellFormedWindows(entries, inds, outcomes)
    ensures var r := ActionResultsSpec(entries, inds, outcomes);
            && (|inds| < 2 ==> r == [])
            && (forall p :: p in r ==>
                  exists i, j :: Emits(entries, inds, outcomes, i, j) && p == PairAt(entries, inds[i], j))
            && (forall i, j :: Emits(entries, inds, outcomes, i, j) ==> PairAt(entries, inds[i], j) in r)
  {
    if |inds| >= 2 {
      CorrelateExact(entries, inds, outcomes, |inds| - 1);
    }
  }

  /** The result lines of `pairs` strictly increase: the pairs come in the
      order of their outcome lines, and no outcome line appears twice. */
  predicate ResultLinesIncrease(pairs: seq<Pair>)
  {
    forall k, l :: 0 <= k < l < |pairs| ==> pairs[k].resultLine < pairs[l].resultLine
  }

  lemma ConcatInOrder(a: seq<Pair>, b: seq<Pair>)
    requires ResultLinesIncrease(a) && ResultLinesIncrease(b)
    requires forall k, l :: 0 <= k < |a| && 0 <= l < |b| ==> a[k].resultLine < b[l].resultLine
    ensures ResultLinesIncrease(a + b)
  {
  }

  /** The pairs of one window come in line order, and their result lines
      lie strictly between the lines of the entries before the window and
      the lines of the entries from its end on. */
  lemma {:induction false} WindowPairsInOrder(entries: seq<Entry>, outcomes: set<string>, a: nat, lo: nat, hi: nat)
    requires a < |entries| && (hi <= |entries| || hi <= lo) && ReasonsIn(entries, outcomes, lo, hi)
    requires InLineOrder(entries)
    ensures var w := WindowPairs(entries, outcomes, a, lo, hi);
            && ResultLinesIncrease(w)
            && (forall k, j :: 0 <= k < |w| && 0 <= j < lo && j < |entries| ==> entries[j].index < w[k].resultLine)
            && (forall k, j :: 0 <= k < |w| && hi <= j < |entries| ==> w[k].resultLine < entries[j].index)
    decreases hi
  {
    if hi > lo {
      var w := WindowPairs(entries, outcomes, a, lo, hi - 1);
      WindowPairsInOrder(entries, outcomes, a, lo, hi - 1);
      if entries[hi - 1].kind in outcomes {
        var p := PairAt(entries, a, hi - 1);
        assert p.resultLine == entries[hi - 1].index;
        assert forall k :: 0 <= k < |w| ==> w[k].resultLine < p.resultLine;
        ConcatInOrder(w, [p]);
        assert WindowPairs(entries, outcomes, a, lo, hi) == w + [p];
      } else {
        assert WindowPairs(entries, outcomes, a, lo, hi) == w;
      }
    }
  }

  /** The pairs of the first `n` windows come in line order, all before
      the lines of the entries from action `n` on. */
  lemma {:induction false} CorrelateInOrder(entries: seq<Entry>, inds: seq<nat>, outcomes: set<string>, n: nat)
    requires n < |inds| && WellFormedWindows(entries, inds, outcomes)
    requires InLineOrder(entries) && StrictlyIncreasing(inds)
    ensures var c := Correlate(entries, inds, outcomes, n);
            && ResultLinesIncrease(c)
            && (forall k, j :: 0 <= k < |c| && inds[n] <= j < |entries| ==> c[k].resultLine < entries[j].index)
  {
    if n > 0 {
      CorrelateInOrder(entries, inds, outcomes, n - 1);
      var a := inds[n - 1];
      WindowPairsInOrder(entries, outcomes, a, a + 1, inds[n]);
      var c, w := Correlate(entries, inds, outcomes, n - 1), WindowPairs(entries, outcomes, a, a + 1, inds[n]);
      assert forall k :: 0 <= k < |c| ==> c[k].resultLine < entries[a].index;
      assert forall l :: 0 <= l < |w| ==> entries[a].index < w[l].resultLine;
      ConcatInOrder(c, w);
    }
  }

  /** `action_results` lists its pairs in the order of their outcome lines
      when the entries are in line order and the actions are listed in
      increasing order. With `ActionResultsExact` this fixes the whole
      sequence: one pair per outcome inside a window, in line order. */
  lemma ActionResultsInOrder(entries: seq<Entry>, inds: seq<nat>, outcomes: set<string>)
    requires WellFormedWindows(entries, inds, outcomes)
    requires InLineOrder(entries) && StrictlyIncreasing(inds)
    ensures ResultLinesIncrease(ActionResultsSpec(entries, inds, outcomes))
  {
    if |inds| >= 2 {
      CorrelateInOrder(entries, inds, outcomes, |inds| - 1);
    }
  }

  /** For the entries of a parsed file and their own action positions, the
      pairs come in the order of their outcome lines. */
  lemma ParsedPairsInOrder(entries: seq<Entry>, outcomes: set<string>)
    requires InLineOrder(entries) && ReasonsAttached(entries)
    ensures WellFormedWindows(entries, ActionPositions(entries), outcomes)
    ensures ResultLinesIncrease(ActionResultsSpec(entries, ActionPositions(entries), outcomes))
  {
    ParsedWindowsWellFormed(entries, outcomes);
    ActionPositionsExact(entries);
    ActionResultsInOrder(entries, ActionPositions(entries), outcomes);
  }

  lemma {:induction false} WindowPairsExtend(entries: seq<Entry>, more: seq<Entry>, outcomes: set<string>, a: nat, lo: nat, hi: nat)
    requires a < |entries| && (hi <= |entries| || hi <= lo) && ReasonsIn(entries, outcomes, lo, hi)
    ensures ReasonsIn(entries + more, outcomes, lo, hi)
    ensures WindowPairs(entries + more, outcomes, a, lo, hi) == WindowPairs(entries, outcomes, a, lo, hi)
    decreases hi
  {
    if hi > lo {
      WindowPairsExtend(entries, more, outcomes, a, lo, hi - 1);
    }
  }

  lemma {:induction false} CorrelateExtend(entries: seq<Entry>, more: seq<Entry>, inds: seq<nat>, outcomes: set<string>, n: nat)
    requires n < |inds| && WellFormedWindows(entries, inds, outcomes) && WellFormedWindows(entries + more, inds, outcomes)
    ensures Correlate(entries + more, inds, outcomes, n) == Correlate(entries, inds, outcomes, n)
  {
    if n > 0 {
      CorrelateExtend(entries, more, inds, outcomes, n - 1);
      WindowPairsExtend(entries, more, outcomes, inds[n - 1], inds[n - 1] + 1, inds[n]);
    }
  }

  /** Entries after the last action are never read: the last action
      yields no pairs, whatever follows it. */
  lemma TrailingEntriesIgnored(entries: seq<Entry>, more: seq<Entry>, inds: seq<nat>, outcomes: set<string>)
    requires WellFormedWindows(entries, inds, outcomes)
    ensures WellFormedWindows(entries + more, inds, outcomes)
    ensures ActionResultsSpec(entries + more, inds, outcomes) == ActionResultsSpec(entries, inds, outcomes)
  {
    forall i | 0 <= i < |inds| - 1
      ensures ReasonsIn(entries + more, outcomes, inds[i] + 1, inds[i + 1])
    {
      WindowPairsExtend(entries, more, outcomes, inds[i], inds[i] + 1, inds[i + 1]);
    }
    if |inds| >= 2 {
      CorrelateExtend(entries, more, inds, outcomes, |inds| - 1);
    }
  }

  /** The entries of a parsed file, with their action positions, can
      always be correlated. */
  lemma ParsedWindowsWellFormed(entries: seq<Entry>, outcomes: set<string>)
    requires ReasonsAttached(entries)
    ensures WellFormedWindows(entries, ActionPositions(entries), outcomes)
  {
    ActionPositionsExact(entries);
  }

  /** One action followed by a stop and later a completion before the
      next action gives two pairs sharing that action. */
  lemma MultiOutcomeExample(entries: seq<Entry>)
    requires entries == [Entry(0, "t", "ordered", None), Entry(1, "t", "stopped", Some("dispensing warning")),
                         Entry(2, "t", "completed", None), Entry(3, "t", "ordered", None)]
    ensures ActionPositions(entries) == [0, 3]
    ensures ActionResultsSpec(entries, [0, 3], DEFAULT_OUTCOMES)
            == [Pair("ordered", 0, "stopped - dispensing warning", 1), Pair("ordered", 0, "completed", 2)]
  {
    MultiOutcomePositions(entries);
    assert OutcomeLabel(entries[1]) == "stopped - dispensing warning";
    assert WindowPairs(entries, DEFAULT_OUTCOMES, 0, 1, 1) == [];
    assert WindowPairs(entries, DEFAULT_OUTCOMES, 0, 1, 2) == [Pair("ordered", 0, "stopped - dispensing warning", 1)];
    assert WindowPairs(entries, DEFAULT_OUTCOMES, 0, 1, 3)
        == [Pair("ordered", 0, "stopped - dispensing warning", 1), Pair("ordered", 0, "completed", 2)];
    assert Correlate(entries, [0, 3], DEFAULT_OUTCOMES, 0) == [];
    assert Correlate(entries, [0, 3], DEFAULT_OUTCOMES, 1) == WindowPairs(entries, DEFAULT_OUTCOMES, 0, 1, 3);
  }

  lemma MultiOutcomePositions(entries: seq<Entry>)
    requires |entries| == 4 && IsAction(entries[0].kind) && IsAction(entries[3].kind)
    requires !IsAction(entries[1].kind) && !IsAction(entries[2].kind)
    ensures ActionPositions(entries) == [0, 3]
  {
    assert entries[..1][..0] == [];
    assert ActionPositions(entries[..1]) == [0];
    assert entries[..2][..1] == entries[..1];
    assert ActionPositions(entries[..2]) == [0];
    assert entries[..3][..2] == entries[..2];
    assert ActionPositions(entries[..3]) == [0];
    assert entries[..4][..3] == entries[..3] && entries[..4] == entries;
  }

  /** A single action, whatever follows it, gives no pairs. */
  lemma SingleActionExample(entries: seq<Entry>)
    requires entries == [Entry(0, "t", "ordered", None), Entry(1, "t", "completed", None)]
    ensures ActionPositions(entries) == [0]
    ensures ActionResultsSpec(entries, ActionPositions(entries), DEFAULT_OUTCOMES) == []
  {
    assert entries[..1][..0] == [];
    assert ActionPositions(entries[..1]) == [0];
    assert entries[..2][..1] == entries[..1] && entries[..2] == entries;
    assert !IsAction(entries[1].kind);
  }
}
