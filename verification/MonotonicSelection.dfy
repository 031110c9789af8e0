/** Order-preserving pairing (`selectMonotonicIndices` of core/src/tool-projection.ts): one
    increasing index into the larger list for every item of the smaller, at the least total
    distance while the table stays within bounds. */
module MonotonicSelection {
  import opened Wrappers

  const MAX_RECONCILE_DP_CELLS: nat := 512 * 512

  // ---- What a selection is worth ----------------------------------------------------------------

  function Distance(a: int, b: int): nat {
    if a < b then b - a else a - b
  }

  /** Strictly increasing indices below `n`. */
  ghost predicate Increasing(sel: seq<nat>, n: nat) {
    && (forall k :: 0 <= k < |sel| ==> sel[k] < n)
    && (forall a, b :: 0 <= a < b < |sel| ==> sel[a] < sel[b])
  }

  /** One index for each of the first `m` items. */
  ghost predicate IsSelection(sel: seq<nat>, n: nat, m: nat) {
    |sel| == m && Increasing(sel, n)
  }

  /** Total distance of pairing `smaller[k]` with `larger[sel[k]]`. */
  ghost function Total(larger: seq<int>, smaller: seq<int>, sel: seq<nat>): nat
    requires |sel| <= |smaller| && Increasing(sel, |larger|)
  {
    if |sel| == 0 then 0
    else
      var k := |sel| - 1;
      Total(larger, smaller, sel[..k]) + Distance(larger[sel[k]], smaller[k])
  }

  /** Where they last differ, `a` is the smaller. */
  ghost predicate ColexLeq(a: seq<nat>, b: seq<nat>)
    requires |a| == |b|
  {
    |a| == 0 || (var k := |a| - 1; a[k] < b[k] || (a[k] == b[k] && ColexLeq(a[..k], b[..k])))
  }

  /** No selection is cheaper, and among equally cheap ones this is the one that, from the
      last item back, prefers the earlier source. */
  ghost predicate IsCheapestEarliest(larger: seq<int>, smaller: seq<int>, sel: seq<nat>) {
    && IsSelection(sel, |larger|, |smaller|)
    && forall other :: IsSelection(other, |larger|, |smaller|) ==>
         var cost, otherCost := Total(larger, smaller, sel), Total(larger, smaller, other);
         cost < otherCost || (cost == otherCost && ColexLeq(sel, other))
  }

  // ---- The table ----------------------------------------------------------------------------------

  /** `None` is positive infinity. */
  type Cost = Option<nat>

  predicate Cheaper(a: Cost, b: Cost) {
    a.Some? && (b.None? || a.value < b.value)
  }

  function Plus(a: Cost, d: nat): Cost {
    if a.None? then None else Some(a.value + d)
  }

  /** The least cost of selecting for the first `j` items among the first `i` candidates. */
  ghost function BestCost(larger: seq<int>, smaller: seq<int>, i: nat, j: nat): Cost
    requires i <= |larger| && j <= |smaller|
    decreases i, 2
  {
    if j == 0 then Some(0)
    else if i == 0 then None
    else if Takes(larger, smaller, i, j) then MatchCost(larger, smaller, i, j)
    else BestCost(larger, smaller, i - 1, j)
  }

  ghost function MatchCost(larger: seq<int>, smaller: seq<int>, i: nat, j: nat): Cost
    requires 0 < i <= |larger| && 0 < j <= |smaller|
    decreases i, 0
  {
    Plus(BestCost(larger, smaller, i - 1, j - 1), Distance(larger[i - 1], smaller[j - 1]))
  }

  /** Whether candidate `i - 1` is taken for item `j - 1`: only if strictly cheaper. */
  ghost predicate Takes(larger: seq<int>, smaller: seq<int>, i: nat, j: nat)
    requires i <= |larger| && j <= |smaller|
    decreases i, 1
  {
    i > 0 && j > 0 && Cheaper(MatchCost(larger, smaller, i, j), BestCost(larger, smaller, i - 1, j))
  }

  /** The choices read back from the corner of the table. */
  ghost function Trace(larger: seq<int>, smaller: seq<int>, i: nat, j: nat): (trace: seq<nat>)
    requires i <= |larger| && j <= |smaller| && j <= i
    ensures |trace| == j
    decreases i
  {
    if j == 0 then []
    else if Takes(larger, smaller, i, j) then Trace(larger, smaller, i - 1, j - 1) + [i - 1]
    else (TableReaches(larger, smaller, i, j); Trace(larger, smaller, i - 1, j))
  }

  /** A cell is finite exactly when there are enough candidates, and on the diagonal every
      candidate is taken. */
  lemma {:induction false} TableReaches(larger: seq<int>, smaller: seq<int>, i: nat, j: nat)
    requires i <= |larger| && j <= |smaller|
    ensures BestCost(larger, smaller, i, j).Some? <==> j <= i
    ensures 0 < j == i ==> Takes(larger, smaller, i, j)
    ensures j > i ==> !Takes(larger, smaller, i, j)
    decreases i
  {
    if i > 0 && j > 0 {
      TableReaches(larger, smaller, i - 1, j);
      TableReaches(larger, smaller, i - 1, j - 1);
      BestUnfolds(larger, smaller, i, j);
    }
  }

  lemma BestUnfolds(larger: seq<int>, smaller: seq<int>, i: nat, j: nat)
    requires 0 < i <= |larger| && 0 < j <= |smaller|
    ensures var skip := BestCost(larger, smaller, i - 1, j);
            var take := Plus(BestCost(larger, smaller, i - 1, j - 1), Distance(larger[i - 1], smaller[j - 1]));
            && (Takes(larger, smaller, i, j) <==> Cheaper(take, skip))
            && BestCost(larger, smaller, i, j) == if Cheaper(take, skip) then take else skip
  {
    assert MatchCost(larger, smaller, i, j)
        == Plus(BestCost(larger, smaller, i - 1, j - 1), Distance(larger[i - 1], smaller[j - 1]));
  }

  lemma {:induction false} TraceCosts(larger: seq<int>, smaller: seq<int>, i: nat, j: nat)
    requires j <= i <= |larger| && j <= |smaller|
    ensures IsSelection(Trace(larger, smaller, i, j), i, j)
    ensures Some(Total(larger, smaller, Trace(larger, smaller, i, j))) == BestCost(larger, smaller, i, j)
    decreases i
  {
    if j > 0 {
      hide BestCost, MatchCost, Takes, Distance;
      TableReaches(larger, smaller, i, j);
      BestUnfolds(larger, smaller, i, j);
      if Takes(larger, smaller, i, j) {
        TraceCosts(larger, smaller, i - 1, j - 1);
        var shorter := Trace(larger, smaller, i - 1, j - 1);
        assert (shorter + [i - 1])[..j - 1] == shorter;
      } else {
        TraceCosts(larger, smaller, i - 1, j);
      }
    }
  }

  /** Dropping the last choice leaves a selection for one item fewer. */
  lemma DropLast(sel: seq<nat>, i: nat, j: nat)
    requires IsSelection(sel, i, j) && j > 0
    ensures sel[j - 1] < i && IsSelection(sel[..j - 1], sel[j - 1], j - 1) && j <= i
    decreases j
  {
    if j > 1 {
      DropLast(sel[..j - 1], sel[j - 1], j - 1);
    }
  }

  lemma Widen(sel: seq<nat>, i: nat, wider: nat, j: nat)
    requires IsSelection(sel, i, j) && i <= wider
    ensures IsSelection(sel, wider, j)
  {
  }

  /** No selection costs less than the table says. */
  lemma {:induction false} BestIsLeast(larger: seq<int>, smaller: seq<int>, i: nat, j: nat, other: seq<nat>)
    requires i <= |larger| && j <= |smaller| && IsSelection(other, i, j)
    ensures BestCost(larger, smaller, i, j).Some?
    ensures BestCost(larger, smaller, i, j).value <= Total(larger, smaller, other)
    decreases i
  {
    if j > 0 {
      var last := other[j - 1];
      DropLast(other, i, j);
      BestUnfolds(larger, smaller, i, j);
      if last == i - 1 {
        BestIsLeast(larger, smaller, i - 1, j - 1, other[..j - 1]);
      } else {
        BestIsLeast(larger, smaller, i - 1, j, other);
      }
    }
  }

  lemma TraceEnds(larger: seq<int>, smaller: seq<int>, i: nat, j: nat)
    requires 0 < j <= i <= |larger| && j <= |smaller|
    ensures var trace := Trace(larger, smaller, i, j);
            if Takes(larger, smaller, i, j) then
              trace[j - 1] == i - 1 && trace[..j - 1] == Trace(larger, smaller, i - 1, j - 1)
            else
              j <= i - 1 && trace == Trace(larger, smaller, i - 1, j) && trace[j - 1] < i - 1
  {
    hide BestCost, MatchCost, Takes;
    TableReaches(larger, smaller, i, j);
    if Takes(larger, smaller, i, j) {
      var shorter := Trace(larger, smaller, i - 1, j - 1);
      assert (shorter + [i - 1])[..j - 1] == shorter;
    } else {
      TraceCosts(larger, smaller, i - 1, j);
    }
  }

  /** Among the selections of least cost, the traced one takes the earlier sources. */
  lemma {:induction false} TraceIsEarliest(larger: seq<int>, smaller: seq<int>, i: nat, j: nat, other: seq<nat>)
    requires j <= i <= |larger| && j <= |smaller| && IsSelection(other, i, j)
    requires BestCost(larger, smaller, i, j) == Some(Total(larger, smaller, other))
    ensures ColexLeq(Trace(larger, smaller, i, j), other)
    decreases i
  {
    if j > 0 {
      hide BestCost, MatchCost, Takes, Distance, Trace;
      var last := other[j - 1];
      DropLast(other, i, j);
      BestUnfolds(larger, smaller, i, j);
      TableReaches(larger, smaller, i, j);
      TraceEnds(larger, smaller, i, j);
      if last == i - 1 {
        BestIsLeast(larger, smaller, i - 1, j - 1, other[..j - 1]);
        if Takes(larger, smaller, i, j) {
          TraceIsEarliest(larger, smaller, i - 1, j - 1, other[..j - 1]);
        }
      } else {
        BestIsLeast(larger, smaller, i - 1, j, other);
        TraceIsEarliest(larger, smaller, i - 1, j, other);
      }
    }
  }

  lemma TraceIsCheapestEarliest(larger: seq<int>, smaller: seq<int>)
    requires |smaller| <= |larger|
    ensures IsCheapestEarliest(larger, smaller, Trace(larger, smaller, |larger|, |smaller|))
  {
    TraceCosts(larger, smaller, |larger|, |smaller|);
    forall other | IsSelection(other, |larger|, |smaller|)
      ensures var cost, otherCost := Total(larger, smaller, Trace(larger, smaller, |larger|, |smaller|)),
              Total(larger, smaller, other);
              cost < otherCost || (cost == otherCost && ColexLeq(Trace(larger, smaller, |larger|, |smaller|), other))
    {
      BestIsLeast(larger, smaller, |larger|, |smaller|, other);
      if BestCost(larger, smaller, |larger|, |smaller|) == Some(Total(larger, smaller, other)) {
        TraceIsEarliest(larger, smaller, |larger|, |smaller|, other);
      }
    }
  }

  /** With as many candidates as items there is only one selection. */
  lemma {:induction false} FullSelectionIsIdentity(sel: seq<nat>, n: nat)
    requires IsSelection(sel, n, n)
    ensures forall k :: 0 <= k < n ==> sel[k] == k
    decreases n
  {
    if n > 0 {
      DropLast(sel, n, n);
      var shorter := sel[..n - 1];
      Widen(shorter, sel[n - 1], n - 1, n - 1);
      FullSelectionIsIdentity(shorter, n - 1);
      assert forall k :: 0 <= k < n - 1 ==> sel[k] == shorter[k];
      if n > 1 { assert sel[n - 2] == n - 2 < sel[n - 1]; }
    }
  }

  lemma {:induction false} ColexReflexive(a: seq<nat>)
    ensures ColexLeq(a, a)
    decreases |a|
  {
    if |a| > 0 { ColexReflexive(a[..|a| - 1]); }
  }

  // ---- The routine ------------------------------------------------------------------------------------

  function Cell(i: nat, j: nat, columns: nat): nat {
    i * columns + j
  }

  lemma {:induction false} RowsAreApart(i: nat, i': nat, columns: nat)
    requires i < i'
    ensures i * columns + columns <= i' * columns
    decreases i'
  {
    assert i' * columns == (i' - 1) * columns + columns;
    if i < i' - 1 {
      RowsAreApart(i, i' - 1, columns);
    }
  }

  lemma CellsAreDistinct(i: nat, j: nat, i': nat, j': nat, columns: nat)
    requires j < columns && j' < columns && Cell(i, j, columns) == Cell(i', j', columns)
    ensures i == i' && j == j'
  {
    if i < i' {
      RowsAreApart(i, i', columns);
    } else if i' < i {
      RowsAreApart(i', i, columns);
    }
  }

  lemma CellInTable(i: nat, j: nat, rows: nat, columns: nat)
    requires i < rows && j < columns
    ensures Cell(i, j, columns) < rows * columns
  {
    RowsAreApart(i, rows, columns);
  }

  /** The decision bits of the first `rows` rows, and of the first `cells` cells of the next,
      are the choices of the table; the others are still clear. */
  ghost predicate DecisionsFor(larger: seq<int>, smaller: seq<int>, decisions: seq<bool>, rows: nat, cells: nat) {
    var columns := |smaller| + 1;
    && |decisions| == (|larger| + 1) * columns
    && forall i: nat, j: nat {:trigger Cell(i, j, columns)} :: i <= |larger| && j < columns ==>
         && Cell(i, j, columns) < |decisions|
         && (decisions[Cell(i, j, columns)] <==>
             (i < rows || (i == rows && j < cells)) && Takes(larger, smaller, i, j))
  }

  ghost predicate CostsOfRow(larger: seq<int>, smaller: seq<int>, costs: seq<Cost>, i: nat)
    requires i <= |larger|
  {
    |costs| == |smaller| + 1 && forall j :: 0 <= j <= |smaller| ==> costs[j] == BestCost(larger, smaller, i, j)
  }

  lemma DecisionsClear(larger: seq<int>, smaller: seq<int>, decisions: seq<bool>)
    requires |decisions| == (|larger| + 1) * (|smaller| + 1) && forall c :: 0 <= c < |decisions| ==> !decisions[c]
    ensures DecisionsFor(larger, smaller, decisions, 1, 0)
  {
    forall i: nat, j: nat | i <= |larger| && j < |smaller| + 1
      ensures Cell(i, j, |smaller| + 1) < |decisions|
      ensures i == 0 ==> !Takes(larger, smaller, i, j)
    {
      CellInTable(i, j, |larger| + 1, |smaller| + 1);
    }
  }

  /** Deciding one more cell leaves every other cell alone. */
  lemma DecisionsGrow(larger: seq<int>, smaller: seq<int>, decisions: seq<bool>, row: nat, j: nat, take: bool)
    requires DecisionsFor(larger, smaller, decisions, row, j)
    requires row <= |larger| && j <= |smaller| && (take <==> Takes(larger, smaller, row, j))
    ensures var cell := Cell(row, j, |smaller| + 1);
            && cell < |decisions|
            && (take ==> DecisionsFor(larger, smaller, decisions[cell := true], row, j + 1))
            && (!take ==> DecisionsFor(larger, smaller, decisions, row, j + 1))
  {
    var columns := |smaller| + 1;
    var cell := Cell(row, j, columns);
    assert cell < |decisions|;
    var after := if take then decisions[cell := true] else decisions;
    forall i: nat, k: nat | i <= |larger| && k < columns
      ensures Cell(i, k, columns) < |after|
      ensures after[Cell(i, k, columns)] <==>
              (i < row || (i == row && k < j + 1)) && Takes(larger, smaller, i, k)
    {
      if Cell(i, k, columns) == cell {
        CellsAreDistinct(i, k, row, j, columns);
      }
    }
  }

  /** Past the diagonal nothing can be taken, so a row is finished there. */
  lemma DecisionsFinishRow(larger: seq<int>, smaller: seq<int>, decisions: seq<bool>, row: nat, cells: nat)
    requires DecisionsFor(larger, smaller, decisions, row, cells) && row <= |larger|
    requires cells > row || cells > |smaller|
    ensures DecisionsFor(larger, smaller, decisions, row + 1, 0)
  {
    var columns := |smaller| + 1;
    forall i: nat, j: nat | i <= |larger| && j < columns
      ensures Cell(i, j, columns) < |decisions|
      ensures decisions[Cell(i, j, columns)] <==> i < row + 1 && Takes(larger, smaller, i, j)
    {
      if i == row && j >= cells {
        TableReaches(larger, smaller, i, j);
      }
    }
  }

  method FillRow(larger: seq<int>, smaller: seq<int>, largerIndex: nat,
                 previousCosts: array<Cost>, currentCosts: array<Cost>, decisions: array<bool>)
    requires 1 <= largerIndex <= |larger|
    requires previousCosts != currentCosts && currentCosts.Length == |smaller| + 1
    requires CostsOfRow(larger, smaller, previousCosts[..], largerIndex - 1)
    requires DecisionsFor(larger, smaller, decisions[..], largerIndex, 0)
    modifies currentCosts, decisions
    ensures CostsOfRow(larger, smaller, currentCosts[..], largerIndex)
    ensures DecisionsFor(larger, smaller, decisions[..], largerIndex + 1, 0)
  {
    hide DecisionsFor;
    var columns := |smaller| + 1;
    ghost var above, clear := previousCosts[..], decisions[..];
    forall c | 0 <= c < columns {
      currentCosts[c] := None;
    }
    currentCosts[0] := Some(0);
    var reachable := if largerIndex < |smaller| then largerIndex else |smaller|;
    assert decisions[..] == clear;
    DecisionsGrow(larger, smaller, clear, largerIndex, 0, false);
    var smallerIndex := 1;
    while smallerIndex <= reachable
      invariant 1 <= smallerIndex <= reachable + 1
      invariant previousCosts[..] == above
      invariant forall j :: 0 <= j < smallerIndex ==> currentCosts[j] == BestCost(larger, smaller, largerIndex, j)
      invariant forall j :: smallerIndex <= j < columns ==> currentCosts[j] == None
      invariant DecisionsFor(larger, smaller, decisions[..], largerIndex, smallerIndex)
    {
      BestUnfolds(larger, smaller, largerIndex, smallerIndex);
      assert above[smallerIndex] == previousCosts[smallerIndex]
          && above[smallerIndex - 1] == previousCosts[smallerIndex - 1];
      var skipCost := previousCosts[smallerIndex];
      var matchCost := Plus(previousCosts[smallerIndex - 1],
          Distance(larger[largerIndex - 1], smaller[smallerIndex - 1]));
      ghost var bits := decisions[..];
      DecisionsGrow(larger, smaller, bits, largerIndex, smallerIndex, Cheaper(matchCost, skipCost));
      var cell := Cell(largerIndex, smallerIndex, columns);
      if Cheaper(matchCost, skipCost) {
        currentCosts[smallerIndex] := matchCost;
        decisions[cell] := true;
        assert decisions[..] == bits[cell := true];
      } else {
        currentCosts[smallerIndex] := skipCost;
        assert decisions[..] == bits;
      }
      smallerIndex := smallerIndex + 1;
    }
    forall j | 0 <= j < columns ensures currentCosts[j] == BestCost(larger, smaller, largerIndex, j) {
      TableReaches(larger, smaller, largerIndex, j);
    }
    DecisionsFinishRow(larger, smaller, decisions[..], largerIndex, smallerIndex);
  }

  /** The exact path: fill the table row by row, then read the choices back. */
  method SelectByTable(larger: seq<int>, smaller: seq<int>) returns (selected: seq<nat>)
    requires 0 < |smaller| <= |larger|
    ensures selected == Trace(larger, smaller, |larger|, |smaller|)
  {
    hide Trace;
    var columns := |smaller| + 1;
    var decisions := new bool[(|larger| + 1) * columns](_ => false);
    var previousCosts := new Cost[columns](_ => None);
    var currentCosts := new Cost[columns](_ => None);
    previousCosts[0] := Some(0);
    DecisionsClear(larger, smaller, decisions[..]);
    var largerIndex := 1;
    while largerIndex <= |larger|
      invariant 1 <= largerIndex <= |larger| + 1
      invariant previousCosts != currentCosts && currentCosts.Length == columns
      invariant fresh(previousCosts) && fresh(currentCosts)
      invariant CostsOfRow(larger, smaller, previousCosts[..], largerIndex - 1)
      invariant DecisionsFor(larger, smaller, decisions[..], largerIndex, 0)
    {
      FillRow(larger, smaller, largerIndex, previousCosts, currentCosts, decisions);
      previousCosts, currentCosts := currentCosts, previousCosts;
      largerIndex := largerIndex + 1;
    }
    selected := ReadBack(larger, smaller, decisions);
  }

  method ReadBack(larger: seq<int>, smaller: seq<int>, decisions: array<bool>) returns (selected: seq<nat>)
    requires |smaller| <= |larger| && DecisionsFor(larger, smaller, decisions[..], |larger| + 1, 0)
    ensures selected == Trace(larger, smaller, |larger|, |smaller|)
  {
    ghost var bits := decisions[..];
    var columns := |smaller| + 1;
    var choices := new nat[|smaller|];
    var largerIndex, smallerIndex := |larger|, |smaller|;
    while smallerIndex > 0 && largerIndex > 0
      invariant 0 <= smallerIndex <= largerIndex <= |larger| && smallerIndex <= |smaller|
      invariant decisions[..] == bits
      invariant Trace(larger, smaller, |larger|, |smaller|)
             == Trace(larger, smaller, largerIndex, smallerIndex) + choices[smallerIndex..]
    {
      TableReaches(larger, smaller, largerIndex, smallerIndex);
      assert bits[Cell(largerIndex, smallerIndex, columns)] <==> Takes(larger, smaller, largerIndex, smallerIndex);
      if decisions[Cell(largerIndex, smallerIndex, columns)] {
        ghost var later := choices[smallerIndex..];
        choices[smallerIndex - 1] := largerIndex - 1;
        assert choices[smallerIndex - 1..] == [largerIndex - 1] + later;
        smallerIndex := smallerIndex - 1;
      }
      largerIndex := largerIndex - 1;
    }
    return choices[..];
  }

  function NextFree(selected: seq<nat>, k: nat): nat
    requires k <= |selected|
  {
    if k == 0 then 0 else selected[k - 1] + 1
  }

  /** From `from`, each step to `at` came nearer to the target, and the walk stopped at the
      last candidate left for item `k` or where the next one is no nearer. */
  ghost predicate GreedyStop(larger: seq<int>, smaller: seq<int>, k: nat, from: nat, at: nat)
    requires k < |smaller| <= |larger|
  {
    var maximum := |larger| - (|smaller| - k);
    && from <= at <= maximum
    && (forall c: nat :: from <= c < at ==> Distance(larger[c + 1], smaller[k]) < Distance(larger[c], smaller[k]))
    && (at == maximum || Distance(larger[at + 1], smaller[k]) >= Distance(larger[at], smaller[k]))
  }

  ghost predicate GreedyThroughout(larger: seq<int>, smaller: seq<int>, selected: seq<nat>)
    requires |selected| <= |smaller| <= |larger|
  {
    forall k :: 0 <= k < |selected| ==> GreedyStop(larger, smaller, k, NextFree(selected, k), selected[k])
  }

  lemma GreedyNothing(larger: seq<int>, smaller: seq<int>)
    requires |smaller| <= |larger|
    ensures GreedyThroughout(larger, smaller, [])
  {
  }

  lemma GreedyExtends(larger: seq<int>, smaller: seq<int>, selected: seq<nat>, at: nat)
    requires |selected| < |smaller| <= |larger| && GreedyThroughout(larger, smaller, selected)
    requires GreedyStop(larger, smaller, |selected|, NextFree(selected, |selected|), at)
    ensures GreedyThroughout(larger, smaller, selected + [at])
  {
    hide GreedyStop;
    var longer := selected + [at];
    assert forall k :: 0 <= k <= |selected| ==> NextFree(longer, k) == NextFree(selected, k);
  }

  /** Beyond the table's bound: move on while the next candidate is nearer, but keep one
      candidate for every item still to come. */
  method SelectGreedily(larger: seq<int>, smaller: seq<int>) returns (selected: seq<nat>)
    requires |smaller| <= |larger|
    ensures IsSelection(selected, |larger|, |smaller|)
    ensures GreedyThroughout(larger, smaller, selected)
  {
    hide GreedyThroughout, GreedyStop, Distance;
    selected := [];
    var cursor := 0;
    GreedyNothing(larger, smaller);
    for smallerIndex := 0 to |smaller|
      invariant IsSelection(selected, cursor, smallerIndex)
      invariant cursor == NextFree(selected, smallerIndex) <= |larger| - (|smaller| - smallerIndex)
      invariant GreedyThroughout(larger, smaller, selected)
    {
      cursor := WalkNearer(larger, smaller, smallerIndex, cursor);
      GreedyExtends(larger, smaller, selected, cursor);
      selected := selected + [cursor];
      cursor := cursor + 1;
    }
  }

  method WalkNearer(larger: seq<int>, smaller: seq<int>, k: nat, from: nat) returns (cursor: nat)
    requires k < |smaller| <= |larger| && from <= |larger| - (|smaller| - k)
    ensures from <= cursor <= |larger| - (|smaller| - k)
    ensures GreedyStop(larger, smaller, k, from, cursor)
  {
    var maximum := |larger| - (|smaller| - k);
    var target := smaller[k];
    cursor := from;
    while cursor < maximum
      invariant from <= cursor <= maximum
      invariant forall c: nat :: from <= c < cursor ==> Distance(larger[c + 1], target) < Distance(larger[c], target)
    {
      var currentDistance := Distance(larger[cursor], target);
      var nextDistance := Distance(larger[cursor + 1], target);
      if nextDistance >= currentDistance { break; }
      cursor := cursor + 1;
    }
  }

  /** One increasing candidate per item; the cheapest and earliest one while the table fits. */
  method SelectMonotonicIndices(larger: seq<int>, smaller: seq<int>) returns (selected: seq<nat>)
    requires |smaller| <= |larger|
    ensures IsSelection(selected, |larger|, |smaller|)
    ensures |smaller| == 0 || |larger| == |smaller| || |larger| * |smaller| <= MAX_RECONCILE_DP_CELLS ==>
              IsCheapestEarliest(larger, smaller, selected)
  {
    if |smaller| == 0 {
      EmptySelectionIsOnly(larger);
      return [];
    }
    if |larger| == |smaller| {
      selected := seq(|larger|, i requires 0 <= i < |larger| => i);
      IdentityIsOnly(larger, smaller, selected);
      return;
    }
    if |larger| * |smaller| <= MAX_RECONCILE_DP_CELLS {
      selected := SelectByTable(larger, smaller);
      TraceIsCheapestEarliest(larger, smaller);
      return;
    }
    selected := SelectGreedily(larger, smaller);
  }

  lemma EmptySelectionIsOnly(larger: seq<int>)
    ensures IsCheapestEarliest(larger, [], [])
  {
  }

  lemma IdentityIsOnly(larger: seq<int>, smaller: seq<int>, identity: seq<nat>)
    requires |larger| == |smaller| == |identity| && forall k :: 0 <= k < |identity| ==> identity[k] == k
    ensures IsCheapestEarliest(larger, smaller, identity)
  {
    ColexReflexive(identity);
    forall other | IsSelection(other, |larger|, |smaller|) ensures other == identity {
      FullSelectionIsIdentity(other, |larger|);
    }
  }
}
