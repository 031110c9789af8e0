/** Tool blocks and the proof each one carries (core/src/tool-projection.ts): which source
    rows a detector vouches for, and when that proof is complete. */
module ToolBlocks {
  import opened Wrappers
  import opened Text
  import opened StableSort

  datatype Provider = Claude | Codex | Grok

  datatype BlockKind =
    | Run | RunGroup | BackgroundWait | BackgroundInteraction | AgentWait | AgentInteraction
    | AgentStart | AgentComplete | ViewImage | Edit

  datatype Outcome = Completed | Succeeded

  /** Rows `startLine` up to, not including, `endLine`. */
  datatype LineRange = LineRange(startLine: int, endLine: int)

  datatype Block = Block(
    id: Text, provider: Provider, kind: BlockKind, outcome: Outcome,
    sourceRange: LineRange, proofRange: LineRange,
    collapseRanges: seq<LineRange>, protectedRanges: seq<LineRange>,
    fingerprint: Text, caption: Text)

  datatype Reason =
    | InvalidIdentity | InvalidSourceRange | InvalidProofRange | ProofDoesNotCoverSource
    | InvalidCollapseRange | InvalidProtectedRange | RangeOutsideSource | RangeOverlap
    | SourceNotFullyClassified | DuplicateId | BlockOverlap

  // ---- Ranges -------------------------------------------------------------------------------

  predicate ValidRange(candidate: LineRange, lineCount: nat) {
    && IsSafeInteger(candidate.startLine) && IsSafeInteger(candidate.endLine)
    && 0 <= candidate.startLine < candidate.endLine <= lineCount
  }

  predicate Contains(outer: LineRange, inner: LineRange) {
    outer.startLine <= inner.startLine && outer.endLine >= inner.endLine
  }

  predicate Overlaps(left: LineRange, right: LineRange) {
    left.startLine < right.endLine && right.startLine < left.endLine
  }

  predicate Holds(range: LineRange, row: int) {
    range.startLine <= row < range.endLine
  }

  /** Some range of the list holds the row. */
  predicate Covered(ranges: seq<LineRange>, row: int) {
    exists i :: 0 <= i < |ranges| && Holds(ranges[i], row)
  }

  predicate OrderedWithoutOverlap(ranges: seq<LineRange>) {
    forall i :: 0 < i < |ranges| ==> ranges[i - 1].endLine <= ranges[i].startLine
  }

  predicate AllValid(ranges: seq<LineRange>, lineCount: nat) {
    forall i :: 0 <= i < |ranges| ==> ValidRange(ranges[i], lineCount)
  }

  predicate AllWithin(ranges: seq<LineRange>, outer: LineRange) {
    forall i :: 0 <= i < |ranges| ==> Contains(outer, ranges[i])
  }

  /** Two ranges overlap exactly when some row is in both. */
  lemma OverlapsMeansSharedRow(a: LineRange, b: LineRange)
    requires a.startLine < a.endLine && b.startLine < b.endLine
    ensures Overlaps(a, b) <==> exists row :: Holds(a, row) && Holds(b, row)
  {
    if Overlaps(a, b) {
      var row := if a.startLine < b.startLine then b.startLine else a.startLine;
      assert Holds(a, row) && Holds(b, row);
    }
  }

  // ---- Identity -----------------------------------------------------------------------------------

  /** White space and line ends, as `String.prototype.trim` removes them. */
  predicate IsTrimmed(u: Unit) {
    || 0x09 <= u <= 0x0d || u == 0x20 || u == 0xa0 || u == 0x1680 || 0x2000 <= u <= 0x200a
    || u == 0x2028 || u == 0x2029 || u == 0x202f || u == 0x205f || u == 0x3000 || u == 0xfeff
  }

  predicate TrimsToNothing(text: Text) {
    forall i :: 0 <= i < |text| ==> IsTrimmed(text[i])
  }

  predicate HasIdentity(block: Block) {
    !TrimsToNothing(block.id) && !TrimsToNothing(block.fingerprint) && !TrimsToNothing(block.caption)
  }

  // ---- A complete proof ----------------------------------------------------------------------------

  /** Every row of the source is to be collapsed or protected, and not both. */
  ghost predicate EveryRowClassifiedOnce(block: Block) {
    forall row :: Holds(block.sourceRange, row) ==>
      (Covered(block.collapseRanges, row) <==> !Covered(block.protectedRanges, row))
  }

  /** What a block must bring for its rows to be touched at all. */
  ghost predicate WellProved(block: Block, lineCount: nat) {
    && HasIdentity(block)
    && ValidRange(block.sourceRange, lineCount)
    && ValidRange(block.proofRange, lineCount)
    && Contains(block.proofRange, block.sourceRange)
    && |block.collapseRanges| > 0
    && AllValid(block.collapseRanges, lineCount) && AllValid(block.protectedRanges, lineCount)
    && AllWithin(block.collapseRanges, block.sourceRange) && AllWithin(block.protectedRanges, block.sourceRange)
    && OrderedWithoutOverlap(block.collapseRanges) && OrderedWithoutOverlap(block.protectedRanges)
    && EveryRowClassifiedOnce(block)
  }

  ghost predicate SomeOverlap(a: seq<LineRange>, b: seq<LineRange>) {
    exists i, j :: 0 <= i < |a| && 0 <= j < |b| && Overlaps(a[i], b[j])
  }

  /** The first thing wrong with a block on its own, if anything is. */
  ghost function Flaw(block: Block, lineCount: nat): Option<Reason> {
    if !HasIdentity(block) then Some(InvalidIdentity)
    else if !ValidRange(block.sourceRange, lineCount) then Some(InvalidSourceRange)
    else if !ValidRange(block.proofRange, lineCount) then Some(InvalidProofRange)
    else if !Contains(block.proofRange, block.sourceRange) then Some(ProofDoesNotCoverSource)
    else if |block.collapseRanges| == 0 || !AllValid(block.collapseRanges, lineCount) then Some(InvalidCollapseRange)
    else if !AllValid(block.protectedRanges, lineCount) then Some(InvalidProtectedRange)
    else if !AllWithin(block.collapseRanges, block.sourceRange)
         || !AllWithin(block.protectedRanges, block.sourceRange) then Some(RangeOutsideSource)
    else if !OrderedWithoutOverlap(block.collapseRanges) || !OrderedWithoutOverlap(block.protectedRanges)
         || SomeOverlap(block.collapseRanges, block.protectedRanges) then Some(RangeOverlap)
    else if exists row :: Holds(block.sourceRange, row)
                       && !Covered(block.collapseRanges, row) && !Covered(block.protectedRanges, row)
      then Some(SourceNotFullyClassified)
    else None
  }

  lemma {:induction false} OrderedIsApart(ranges: seq<LineRange>, lineCount: nat, i: nat, j: nat)
    requires OrderedWithoutOverlap(ranges) && AllValid(ranges, lineCount) && i < j < |ranges|
    ensures ranges[i].endLine <= ranges[j].startLine
    decreases j
  {
    if i < j - 1 {
      OrderedIsApart(ranges, lineCount, i, j - 1);
      assert ValidRange(ranges[j - 1], lineCount);
    }
  }

  /** A block without a flaw is exactly one with a complete proof. */
  lemma FlawlessIsWellProved(block: Block, lineCount: nat)
    ensures Flaw(block, lineCount).None? <==> WellProved(block, lineCount)
  {
    var a, b := block.collapseRanges, block.protectedRanges;
    if AllValid(a, lineCount) && AllValid(b, lineCount) {
      if SomeOverlap(a, b) {
        var i, j :| 0 <= i < |a| && 0 <= j < |b| && Overlaps(a[i], b[j]);
        assert ValidRange(a[i], lineCount) && ValidRange(b[j], lineCount);
        OverlapsMeansSharedRow(a[i], b[j]);
        var row :| Holds(a[i], row) && Holds(b[j], row);
        assert Covered(a, row) && Covered(b, row);
        assert AllWithin(a, block.sourceRange) ==> Contains(block.sourceRange, a[i]) && Holds(block.sourceRange, row);
      }
    }
  }

  // ---- Checking a block ---------------------------------------------------------------------------

  function ByStart(ranges: seq<LineRange>): (keys: seq<Key>)
    ensures |keys| == |ranges|
  {
    seq(|ranges|, i requires 0 <= i < |ranges| => Key(ranges[i].startLine, 0))
  }

  /** The ranges in order of their starts. */
  /** No range reaches into the next. */
  ghost predicate Apart(ranges: seq<LineRange>) {
    forall i, j :: 0 <= i < j < |ranges| ==> ranges[i].endLine <= ranges[j].startLine
  }

  lemma {:induction false} NeighboursApart(ranges: seq<LineRange>, lineCount: nat, n: nat)
    requires n <= |ranges| && AllValid(ranges, lineCount)
    requires forall i, j :: 0 <= i < j < |ranges| ==> ranges[i].startLine <= ranges[j].startLine
    requires forall i :: 0 < i < n ==> !Overlaps(ranges[i - 1], ranges[i])
    ensures Apart(ranges[..n])
  {
    if n > 0 {
      NeighboursApart(ranges, lineCount, n - 1);
      forall i | 0 <= i < n - 1 ensures ranges[i].endLine <= ranges[n - 1].startLine {
        assert ValidRange(ranges[n - 2], lineCount) && ValidRange(ranges[n - 1], lineCount);
        if i < n - 2 {
          assert ranges[..n - 1][i].endLine <= ranges[..n - 1][n - 2].startLine;
        }
      }
    }
  }

  /** In the combined list a range keeps its neighbours from its own list. */
  lemma OverlapIsAcross(block: Block, lineCount: nat, i: nat, j: nat)
    requires var all := block.collapseRanges + block.protectedRanges;
             i < |all| && j < |all| && i != j && Overlaps(all[i], all[j])
    requires AllValid(block.collapseRanges, lineCount) && AllValid(block.protectedRanges, lineCount)
    requires OrderedWithoutOverlap(block.collapseRanges) && OrderedWithoutOverlap(block.protectedRanges)
    ensures SomeOverlap(block.collapseRanges, block.protectedRanges)
  {
    var a, b := block.collapseRanges, block.protectedRanges;
    var x, y := if i < j then i else j, if i < j then j else i;
    if y < |a| {
      OrderedIsApart(a, lineCount, x, y);
    } else if x >= |a| {
      OrderedIsApart(b, lineCount, x - |a|, y - |a|);
    } else {
      assert Overlaps(a[x], b[y - |a|]);
    }
  }

  /** Sorted, apart ranges: exactly the ranges of the block, and no two of them meet. */
  lemma ArrangedIsApart(block: Block, order: seq<nat>)
    requires var all := block.collapseRanges + block.protectedRanges;
             IsStableOrder(ByStart(all), order) && Apart(Arrange(all, order))
    ensures !SomeOverlap(block.collapseRanges, block.protectedRanges)
    ensures forall row :: Covered(Arrange(block.collapseRanges + block.protectedRanges, order), row) <==>
              Covered(block.collapseRanges, row) || Covered(block.protectedRanges, row)
  {
    var a, b := block.collapseRanges, block.protectedRanges;
    var all := a + b;
    var arranged := Arrange(all, order);
    forall i, j | 0 <= i < |a| && 0 <= j < |b| ensures !Overlaps(a[i], b[j]) {
      var x, y: nat := i, |a| + j;
      assert x in order && y in order;
      var k :| 0 <= k < |order| && order[k] == x;
      var l :| 0 <= l < |order| && order[l] == y;
      assert arranged[k] == a[i] && arranged[l] == b[j];
    }
    forall row ensures Covered(arranged, row) <==> Covered(a, row) || Covered(b, row) {
      ArrangedCovers(a, b, order, row);
    }
  }

  lemma ArrangedCovers(a: seq<LineRange>, b: seq<LineRange>, order: seq<nat>, row: int)
    requires IsStableOrder(ByStart(a + b), order)
    ensures Covered(Arrange(a + b, order), row) <==> Covered(a, row) || Covered(b, row)
  {
    var all := a + b;
    var arranged := Arrange(all, order);
    if Covered(arranged, row) {
      var k :| 0 <= k < |arranged| && Holds(arranged[k], row);
      var i := order[k];
      assert if i < |a| then all[i] == a[i] else all[i] == b[i - |a|];
    }
    if Covered(a, row) || Covered(b, row) {
      var i: nat;
      if Covered(a, row) {
        i :| i < |a| && Holds(a[i], row);
      } else {
        var j: nat :| j < |b| && Holds(b[j], row);
        i := |a| + j;
      }
      assert i in order;
      var k :| 0 <= k < |order| && order[k] == i;
      assert arranged[k] == all[i];
    }
  }

  method ClassifyOne(block: Block, lineCount: nat) returns (reason: Option<Reason>)
    ensures reason == Flaw(block, lineCount)
  {
    if TrimsToNothing(block.id) || TrimsToNothing(block.fingerprint) || TrimsToNothing(block.caption) {
      return Some(InvalidIdentity);
    }
    if !ValidRange(block.sourceRange, lineCount) { return Some(InvalidSourceRange); }
    if !ValidRange(block.proofRange, lineCount) { return Some(InvalidProofRange); }
    if !Contains(block.proofRange, block.sourceRange) { return Some(ProofDoesNotCoverSource); }
    if |block.collapseRanges| == 0 || !AllValid(block.collapseRanges, lineCount) {
      return Some(InvalidCollapseRange);
    }
    if !AllValid(block.protectedRanges, lineCount) { return Some(InvalidProtectedRange); }
    var allRanges := block.collapseRanges + block.protectedRanges;
    if !AllWithin(allRanges, block.sourceRange) {
      AllWithinSplits(block.collapseRanges, block.protectedRanges, block.sourceRange);
      return Some(RangeOutsideSource);
    }
    AllWithinSplits(block.collapseRanges, block.protectedRanges, block.sourceRange);
    if !OrderedWithoutOverlap(block.collapseRanges) || !OrderedWithoutOverlap(block.protectedRanges) {
      return Some(RangeOverlap);
    }
    var order := StableOrder(ByStart(allRanges));
    var ordered := Arrange(allRanges, order);
    var clash := SomeNeighboursMeet(ordered);
    NeighboursDecideOverlap(block, lineCount, order, ordered);
    if clash { return Some(RangeOverlap); }
    ArrangedIsApart(block, order);
    var tiled := TilesExactly(ordered, block.sourceRange);
    if !tiled { return Some(SourceNotFullyClassified); }
    return None;
  }

  lemma AllWithinSplits(a: seq<LineRange>, b: seq<LineRange>, outer: LineRange)
    ensures AllWithin(a + b, outer) <==> AllWithin(a, outer) && AllWithin(b, outer)
  {
    assert forall i :: 0 <= i < |b| ==> (a + b)[|a| + i] == b[i];
    assert forall i :: 0 <= i < |a| ==> (a + b)[i] == a[i];
  }

  lemma ArrangedIsSorted(ranges: seq<LineRange>, order: seq<nat>)
    requires IsStableOrder(ByStart(ranges), order)
    ensures var arranged := Arrange(ranges, order);
            forall i, j :: 0 <= i < j < |arranged| ==> arranged[i].startLine <= arranged[j].startLine
  {
    forall i, j | 0 <= i < j < |order| ensures ranges[order[i]].startLine <= ranges[order[j]].startLine {
      assert Before(ByStart(ranges), order[i], order[j]);
    }
  }

  /** Comparing sorted neighbours finds an overlap exactly when the two lists have one. */
  lemma NeighboursDecideOverlap(block: Block, lineCount: nat, order: seq<nat>, ordered: seq<LineRange>)
    requires AllValid(block.collapseRanges, lineCount) && AllValid(block.protectedRanges, lineCount)
    requires OrderedWithoutOverlap(block.collapseRanges) && OrderedWithoutOverlap(block.protectedRanges)
    requires var all := block.collapseRanges + block.protectedRanges;
             IsStableOrder(ByStart(all), order) && ordered == Arrange(all, order)
    ensures if exists i :: NeighboursMeet(ordered, i) then SomeOverlap(block.collapseRanges, block.protectedRanges)
            else Apart(ordered)
  {
    var all := block.collapseRanges + block.protectedRanges;
    if i :| NeighboursMeet(ordered, i) {
      assert Before(ByStart(all), order[i - 1], order[i]);
      OverlapIsAcross(block, lineCount, order[i - 1], order[i]);
    } else {
      ArrangedIsSorted(all, order);
      assert AllValid(ordered, lineCount);
      forall i | 0 < i < |ordered| ensures !Overlaps(ordered[i - 1], ordered[i]) {
        assert !NeighboursMeet(ordered, i);
      }
      NeighboursApart(ordered, lineCount, |ordered|);
      assert ordered[..|ordered|] == ordered;
    }
  }

  ghost predicate NeighboursMeet(ordered: seq<LineRange>, i: int) {
    0 < i < |ordered| && Overlaps(ordered[i - 1], ordered[i])
  }

  method SomeNeighboursMeet(ordered: seq<LineRange>) returns (clash: bool)
    ensures clash <==> exists i :: NeighboursMeet(ordered, i)
  {
    var index := 1;
    while index < |ordered|
      invariant 1 <= index
      invariant forall i :: i < index ==> !NeighboursMeet(ordered, i)
    {
      if Overlaps(ordered[index - 1], ordered[index]) {
        assert NeighboursMeet(ordered, index);
        return true;
      }
      index := index + 1;
    }
    return false;
  }

  /** Whether sorted, apart ranges inside `source` leave no row of it out. */
  method TilesExactly(ordered: seq<LineRange>, source: LineRange) returns (tiled: bool)
    requires Apart(ordered) && AllWithin(ordered, source)
    requires forall i :: 0 <= i < |ordered| ==> ordered[i].startLine < ordered[i].endLine
    requires source.startLine < source.endLine
    ensures tiled <==> forall row :: Holds(source, row) ==> Covered(ordered, row)
  {
    var cursor := source.startLine;
    for index := 0 to |ordered|
      invariant source.startLine <= cursor <= source.endLine
      invariant forall row :: source.startLine <= row < cursor ==> Covered(ordered, row)
      invariant forall i :: 0 <= i < index ==> ordered[i].endLine <= cursor
      invariant forall i :: index <= i < |ordered| ==> cursor <= ordered[i].startLine
    {
      if ordered[index].startLine != cursor {
        NotCovered(ordered, index, cursor);
        assert Holds(source, cursor);
        return false;
      }
      forall row | cursor <= row < ordered[index].endLine ensures Covered(ordered, row) {
        assert Holds(ordered[index], row);
      }
      cursor := ordered[index].endLine;
    }
    if cursor != source.endLine {
      NotCovered(ordered, |ordered|, cursor);
      assert Holds(source, cursor);
    }
    return cursor == source.endLine;
  }

  lemma NotCovered(ordered: seq<LineRange>, index: nat, row: int)
    requires index <= |ordered|
    requires forall i :: 0 <= i < index ==> ordered[i].endLine <= row
    requires forall i :: index <= i < |ordered| ==> row < ordered[i].startLine
    ensures !Covered(ordered, row)
  {
  }
}
