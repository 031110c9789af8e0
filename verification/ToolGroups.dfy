/** What grouping placeholders means to its caller: which neighbours become one row, which
    source lines stay shown, and that keys survive a frame in which nothing changed. */
module ToolGroups {
  import opened Wrappers
  import opened Text
  import opened TerminalControls
  import opened ToolBlocks
  import opened ToolValidation
  import opened ToolProjection
  import opened ToolCoalescing

  // ---- Barriers and hard ranges ----------------------------------------------------------------------

  lemma {:induction false} IsProtectedRange(blocks: seq<Block>, range: LineRange)
    ensures range in ProtectedOf(blocks) <==>
              exists b :: 0 <= b < |blocks| && range in blocks[b].protectedRanges
  {
    if blocks != [] {
      IsProtectedRange(blocks[1..], range);
      if b :| 0 <= b < |blocks[1..]| && range in blocks[1..][b].protectedRanges {
        assert range in blocks[b + 1].protectedRanges;
      }
      if b :| 0 <= b < |blocks| && range in blocks[b].protectedRanges {
        assert b > 0 ==> blocks[1..][b - 1] == blocks[b];
      }
    }
  }

  lemma {:induction false} IsRejectedSource(rejected: seq<Rejection>, n: nat, range: LineRange)
    ensures range in RejectedSources(rejected, n) <==>
              exists x :: 0 <= x < |rejected| && rejected[x].block.sourceRange == range && ValidRange(range, n)
  {
    if rejected != [] {
      IsRejectedSource(rejected[1..], n, range);
      if x :| 0 <= x < |rejected[1..]| && rejected[1..][x].block.sourceRange == range && ValidRange(range, n) {
        assert rejected[x + 1].block.sourceRange == range;
      }
      if x :| 0 <= x < |rejected| && rejected[x].block.sourceRange == range && ValidRange(range, n) {
        assert x > 0 ==> rejected[1..][x - 1] == rejected[x];
      }
    }
  }

  /** A range that joining must not touch: one that a projected block protects, or the source
      of a rejected block, so far as it is one. */
  ghost predicate MustStay(p: Projection, range: LineRange) {
    || (exists b :: 0 <= b < |p.projectedBlocks| && range in p.projectedBlocks[b].protectedRanges)
    || (exists x :: 0 <= x < |p.rejectedBlocks| && p.rejectedBlocks[x].block.sourceRange == range
                    && ValidRange(range, |p.rawLines|))
  }

  lemma IsHardRange(p: Projection, range: LineRange)
    ensures range in HardRanges(p) <==> MustStay(p, range)
  {
    IsProtectedRange(p.projectedBlocks, range);
    IsRejectedSource(p.rejectedBlocks, |p.rawLines|, range);
  }

  // ---- Lines that stay shown -------------------------------------------------------------------------

  /** A source line in such a range, if it was shown as itself, is still shown as itself. */
  lemma HardLinesStayShown(rawLines: seq<Text>, placeholder: PlaceholderContext -> Text, p: Projection,
                           barriers: set<int>, runs: seq<PlaceholderRun>, keys: seq<Text>, g: GroupedProjection,
                           range: LineRange, r: nat)
    requires IsProjection(rawLines, p.projectedBlocks, placeholder, p) && InSequence(p.projectedBlocks, |rawLines|)
    requires CoversSource(p) && RunsUpTo(p, barriers, HardRanges(p), runs, |p.rows|)
    requires IsGrouping(p, runs, keys, g)
    requires MustStay(p, range) && Holds(range, r) && r < |rawLines| && p.rows[p.rawToVisualRow[r]].kind.Raw?
    ensures g.rows[g.rawToVisualRow[r]].row == RawRow(g.rawToVisualRow[r], rawLines, r)
  {
    IsHardRange(p, range);
    var h :| 0 <= h < |HardRanges(p)| && HardRanges(p)[h] == range;
    CoveredLinesStayShown(rawLines, placeholder, p, barriers, runs, keys, g, r);
  }

  /** No line of a rejected block is swallowed. */
  lemma RejectedLinesStayShown(rawLines: seq<Text>, placeholder: PlaceholderContext -> Text, p: Projection,
                               barriers: set<int>, runs: seq<PlaceholderRun>, keys: seq<Text>, g: GroupedProjection,
                               x: nat, r: nat)
    requires IsProjection(rawLines, p.projectedBlocks, placeholder, p) && InSequence(p.projectedBlocks, |rawLines|)
    requires CoversSource(p) && RunsUpTo(p, barriers, HardRanges(p), runs, |p.rows|)
    requires IsGrouping(p, runs, keys, g)
    requires x < |p.rejectedBlocks| && ValidRange(p.rejectedBlocks[x].block.sourceRange, |rawLines|)
    requires Holds(p.rejectedBlocks[x].block.sourceRange, r) && p.rows[p.rawToVisualRow[r]].kind.Raw?
    ensures g.rows[g.rawToVisualRow[r]].row == RawRow(g.rawToVisualRow[r], rawLines, r)
  {
    assert MustStay(p, p.rejectedBlocks[x].block.sourceRange);
    HardLinesStayShown(rawLines, placeholder, p, barriers, runs, keys, g, p.rejectedBlocks[x].block.sourceRange, r);
  }

  // ---- Which neighbours become one row ----------------------------------------------------------------

  /** What must hold for two placeholders, with no other between them, to become one row. */
  ghost predicate MayBecomeOne(p: Projection, barrierLines: seq<int>, i: nat, j: nat)
    requires IsToolRow(p, i) && IsToolRow(p, j)
  {
    var gapStart, gapEnd := p.rows[i].rawRange.endLine, p.rows[j].rawRange.startLine;
    && p.rows[i].block.value.provider == p.rows[j].block.value.provider
    && p.rows[i].line == p.rows[j].line != []
    && (forall barrier :: barrier in barrierLines ==> barrier < gapStart || gapEnd < barrier)
    && (forall range :: MustStay(p, range) ==> range.endLine <= gapStart || gapEnd <= range.startLine)
    && LinesAreBlank(p, gapStart, gapEnd)
  }

  lemma GapIsJoinable(p: Projection, barrierLines: seq<int>, i: nat, j: nat)
    requires CoversSource(p) && IsToolRow(p, i) && IsToolRow(p, j) && i < j && NoToolRows(p, i + 1, j)
    requires p.rows[i].block.value.provider == p.rows[j].block.value.provider && p.rows[i].line == p.rows[j].line != []
    ensures JoinableGap(p, i, j, BarrierSet(barrierLines, |p.rawLines|), HardRanges(p)) <==>
              MayBecomeOne(p, barrierLines, i, j)
  {
    hide LinesAreBlank;
    TileInOrder(p.rows, 0, |p.rawLines|, i, j);
    assert RowIsConsistent(p.rows[i], |p.rawLines|) && RowIsConsistent(p.rows[j], |p.rawLines|);
    hide Tile, HardRanges;
    var gapStart, gapEnd := p.rows[i].rawRange.endLine, p.rows[j].rawRange.startLine;
    var barriers, hardRanges := BarrierSet(barrierLines, |p.rawLines|), HardRanges(p);
    forall range ensures MustStay(p, range) <==> range in hardRanges { IsHardRange(p, range); }
    hide MustStay;
    assert forall h :: 0 <= h < |hardRanges| ==> hardRanges[h] in hardRanges;
    GapRowsAreBlank(p, i, j);
    if JoinableGap(p, i, j, barriers, hardRanges) {
      forall barrier | barrier in barrierLines ensures barrier < gapStart || gapEnd < barrier {
        assert 0 <= barrier <= |p.rawLines| && IsSafeInteger(barrier) ==> barrier in barriers;
      }
    }
  }

  ghost predicate RowsAreBlank(p: Projection, i: nat, j: nat)
    requires i < j < |p.rows|
  {
    forall k :: i < k < j ==>
      && p.rows[k].kind.Raw?
      && (forall r :: p.rows[k].rawRange.startLine <= r < p.rows[k].rawRange.endLine && 0 <= r < |p.rawLines| ==>
            IsBlankRow(p.rawLines[r]))
  }

  ghost predicate LinesAreBlank(p: Projection, from: int, to: int) {
    forall r: nat :: from <= r < to && r < |p.rawLines| ==> IsBlankRow(p.rawLines[r])
  }

  /** The rows of a gap are its lines. */
  lemma GapRowsAreBlank(p: Projection, i: nat, j: nat)
    requires CoversSource(p) && IsToolRow(p, i) && IsToolRow(p, j) && i < j && NoToolRows(p, i + 1, j)
    ensures RowsAreBlank(p, i, j) <==> LinesAreBlank(p, p.rows[i].rawRange.endLine, p.rows[j].rawRange.startLine)
  {
    hide Tile;
    var from, to := p.rows[i].rawRange.endLine, p.rows[j].rawRange.startLine;
    forall k: nat | i < k < j
      ensures p.rows[k].kind.Raw? && from <= p.rows[k].rawRange.startLine && p.rows[k].rawRange.endLine <= to
    {
      assert RowIsConsistent(p.rows[k], |p.rawLines|) && !IsToolRow(p, k);
      TileInOrder(p.rows, 0, |p.rawLines|, i, k);
      TileInOrder(p.rows, 0, |p.rawLines|, k, j);
    }
    if RowsAreBlank(p, i, j) {
      forall r: nat | from <= r < to && r < |p.rawLines| ensures IsBlankRow(p.rawLines[r]) {
        var k := RowHolding(p, i, j, r);
      }
    }
  }

  lemma {:induction false} RowHolding(p: Projection, i: nat, j: nat, r: nat) returns (k: nat)
    requires CoversSource(p) && i < j < |p.rows|
    requires p.rows[i].rawRange.endLine <= r < p.rows[j].rawRange.startLine
    ensures i < k < j && Holds(p.rows[k].rawRange, r)
    decreases j - i
  {
    hide Tile;
    TileInOrder(p.rows, 0, |p.rawLines|, i, i + 1);
    TileInOrder(p.rows, 0, |p.rawLines|, i + 1, j);
    if r < p.rows[i + 1].rawRange.endLine {
      k := i + 1;
    } else {
      k := RowHolding(p, i + 1, j, r);
    }
  }

  /** A run is linked at every one of its members. */
  lemma {:induction false} LinkedAt(p: Projection, barriers: set<int>, hardRanges: seq<LineRange>, members: seq<nat>,
      m: nat)
    requires Linked(p, barriers, hardRanges, members) && 0 < m < |members|
    ensures members[m - 1] < members[m] < |p.rows|
    ensures JoinableGap(p, members[m - 1], members[m], barriers, hardRanges)
    decreases |members|
  {
    hide JoinableGap;
    if m < |members| - 1 {
      LinkedAt(p, barriers, hardRanges, members[..|members| - 1], m);
    }
  }

  /** Neighbours within one run are neighbouring members of it. */
  lemma NeighboursInRun(p: Projection, barriers: set<int>, hardRanges: seq<LineRange>, run: PlaceholderRun, i: nat,
      j: nat)
    requires IsRun(p, barriers, hardRanges, run) && run.startRow <= i < j <= run.endRow
    requires IsToolRow(p, i) && IsToolRow(p, j) && NoToolRows(p, i + 1, j)
    ensures Resembles(p, i, run.provider, run.line) && Resembles(p, j, run.provider, run.line) && run.line != []
    ensures JoinableGap(p, i, j, barriers, hardRanges)
  {
    hide Linked, IsToolRow;
    var members := run.members;
    var m := RowInRun(p, barriers, hardRanges, members, j);
    assert members[m] == j by { assert IsToolRow(p, j); RowIsMember(p, barriers, hardRanges, members, m, j); }
    assert m > 0;
    LinkedAt(p, barriers, hardRanges, members, m);
    assert members[m - 1] >= i by { assert Resembles(p, members[m - 1], run.provider, run.line);
      PredecessorIsFirst(p, barriers, hardRanges, members, m, i); }
    assert IsToolRow(p, members[m - 1]);
  }

  lemma RowIsMember(p: Projection, barriers: set<int>, hardRanges: seq<LineRange>, members: seq<nat>, m: nat, j: nat)
    requires m < |members| && IsToolRow(p, j)
    requires members[m] == j || (m > 0 && members[m - 1] < j < members[m] < |p.rows|
               && JoinableGap(p, members[m - 1], members[m], barriers, hardRanges))
    ensures members[m] == j
  {
  }

  lemma PredecessorIsFirst(p: Projection, barriers: set<int>, hardRanges: seq<LineRange>, members: seq<nat>, m: nat,
      i: nat)
    requires 0 < m < |members| && members[m - 1] < members[m] < |p.rows|
    requires JoinableGap(p, members[m - 1], members[m], barriers, hardRanges)
    requires IsToolRow(p, i) && i < members[m]
    ensures i <= members[m - 1]
  {
  }

  /** A run could not have taken in the first row of the next. */
  lemma {:induction false} RunsDoNotJoin(p: Projection, barriers: set<int>, hardRanges: seq<LineRange>,
      runs: seq<PlaceholderRun>, n: nat, c: nat)
    requires RunsUpTo(p, barriers, hardRanges, runs, n) && c + 1 < |runs|
    ensures !CouldJoin(p, barriers, hardRanges, runs[c], runs[c + 1].startRow)
    decreases |runs|
  {
    hide IsRun, CouldJoin;
    var last := |runs| - 1;
    if c + 1 < last {
      RunsDoNotJoin(p, barriers, hardRanges, runs[..last], runs[last].startRow, c);
    }
  }

  /** Neighbours in different runs could not have been joined. */
  lemma NeighboursApart(p: Projection, barriers: set<int>, hardRanges: seq<LineRange>, runs: seq<PlaceholderRun>,
      c: nat, d: nat, i: nat, j: nat)
    requires RunsUpTo(p, barriers, hardRanges, runs, |p.rows|) && c < d < |runs|
    requires IsToolRow(p, i) && IsToolRow(p, j) && i < j && NoToolRows(p, i + 1, j)
    requires runs[c].startRow <= i <= runs[c].endRow && runs[d].startRow <= j <= runs[d].endRow
    ensures !(p.rows[i].block.value.provider == p.rows[j].block.value.provider && p.rows[i].line == p.rows[j].line != []
              && JoinableGap(p, i, j, barriers, hardRanges))
  {
    hide RunsUpTo, JoinableGap, Linked;
    RunsInOrder(p, barriers, hardRanges, runs, |p.rows|, c, c + 1);
    RunsInOrder(p, barriers, hardRanges, runs, |p.rows|, c + 1, d);
    RunHasToolRows(p, barriers, hardRanges, runs[c]);
    RunHasToolRows(p, barriers, hardRanges, runs[c + 1]);
    assert IsToolRow(p, runs[c].members[|runs[c].members| - 1]) && IsToolRow(p, runs[c + 1].members[0]);
    assert runs[c].endRow == i && runs[c + 1].startRow == j;
    assert Resembles(p, runs[c].members[|runs[c].members| - 1], runs[c].provider, runs[c].line);
    RunsDoNotJoin(p, barriers, hardRanges, runs, |p.rows|, c);
  }

  /** The visual row that holds a placeholder's lines is the row of its run. */
  lemma VisualRowOfRun(p: Projection, barriers: set<int>, hardRanges: seq<LineRange>, runs: seq<PlaceholderRun>,
      keys: seq<Text>, g: GroupedProjection, c: nat, i: nat)
    requires CoversSource(p) && RunsUpTo(p, barriers, hardRanges, runs, |p.rows|) && IsGrouping(p, runs, keys, g)
    requires c < |runs| && runs[c].startRow <= i <= runs[c].endRow && IsToolRow(p, i)
    ensures 0 <= p.rows[i].rawRange.startLine < |p.rawLines|
    ensures var v := g.rawToVisualRow[p.rows[i].rawRange.startLine];
            && v < |g.rows| && c < |keys| && MembersAreToolRows(p, runs[c])
            && g.rows[v] == GroupRow(p, runs[c], keys[c], v)
  {
    TileInOrder(p.rows, 0, |p.rawLines|, i, i);
    var r: nat := p.rows[i].rawRange.startLine;
    var v := g.rawToVisualRow[r];
    assert Holds(PlainRows(g.rows)[v].rawRange, r);
    var d, k := OutputRowStandsFor(p, runs, keys, g.rows, |runs|, |p.rows|, v);
    hide IsGrouping, GroupRow, MembersAreToolRows, RunsUpTo;
    if k < |p.rows| && p.rows[k].kind.Raw? && g.rows[v] == KeptRow(p, k, v) {
      if k < i { TileInOrder(p.rows, 0, |p.rawLines|, k, i); }
      if i < k { TileInOrder(p.rows, 0, |p.rawLines|, i, k); }
      assert false;
    } else {
      GroupRowRange(p, runs[d], keys[d], v);
      RunsInOrder(p, barriers, hardRanges, runs, |p.rows|, d, d);
      RowIndexInRun(p, runs[d].startRow, runs[d].endRow, i, r);
      if c < d { RunsInOrder(p, barriers, hardRanges, runs, |p.rows|, c, d); }
      if d < c { RunsInOrder(p, barriers, hardRanges, runs, |p.rows|, d, c); }
    }
  }

  lemma SameRunSameRow(p: Projection, runs: seq<PlaceholderRun>, keys: seq<Text>, g: GroupedProjection, c: nat,
      i: nat, j: nat)
    requires CoversSource(p) && IsGrouping(p, runs, keys, g) && c < |runs| && c < |keys|
    requires MembersAreToolRows(p, runs[c]) && runs[c].startRow <= i <= runs[c].endRow
    requires runs[c].startRow <= j <= runs[c].endRow
    requires 0 <= p.rows[i].rawRange.startLine < |p.rawLines| && 0 <= p.rows[j].rawRange.startLine < |p.rawLines|
    requires var v := g.rawToVisualRow[p.rows[i].rawRange.startLine];
             v < |g.rows| && g.rows[v] == GroupRow(p, runs[c], keys[c], v)
    ensures g.rawToVisualRow[p.rows[i].rawRange.startLine] == g.rawToVisualRow[p.rows[j].rawRange.startLine]
  {
    hide Tile, RowLines, RowRanges, OutputUpTo;
    var s: nat := p.rows[j].rawRange.startLine;
    var v, w := g.rawToVisualRow[p.rows[i].rawRange.startLine], g.rawToVisualRow[s];
    GroupRowRange(p, runs[c], keys[c], v);
    TileInOrder(p.rows, 0, |p.rawLines|, runs[c].startRow, j);
    TileInOrder(p.rows, 0, |p.rawLines|, j, runs[c].endRow);
    var plain := PlainRows(g.rows);
    assert Holds(plain[v].rawRange, s) && Holds(plain[w].rawRange, s);
    if v < w { TileInOrder(plain, 0, |p.rawLines|, v, w); }
    if w < v { TileInOrder(plain, 0, |p.rawLines|, w, v); }
  }

  /** Two neighbouring placeholders become one row exactly when they show the same text for the
      same provider, every line between them is blank, and neither a barrier nor a range that
      must stay lies in or at the gap. */
  lemma NeighboursBecomeOne(p: Projection, barrierLines: seq<int>, runs: seq<PlaceholderRun>, keys: seq<Text>,
      g: GroupedProjection, i: nat, j: nat)
    requires CoversSource(p) && IsGrouping(p, runs, keys, g)
    requires RunsUpTo(p, BarrierSet(barrierLines, |p.rawLines|), HardRanges(p), runs, |p.rows|)
    requires IsToolRow(p, i) && IsToolRow(p, j) && i < j && NoToolRows(p, i + 1, j)
    ensures 0 <= p.rows[i].rawRange.startLine < p.rows[j].rawRange.startLine < |p.rawLines|
    ensures g.rawToVisualRow[p.rows[i].rawRange.startLine] == g.rawToVisualRow[p.rows[j].rawRange.startLine]
            <==> MayBecomeOne(p, barrierLines, i, j)
  {
    var barriers, hardRanges := BarrierSet(barrierLines, |p.rawLines|), HardRanges(p);
    var c := ToolRowIsInRun(p, barriers, hardRanges, runs, |p.rows|, i);
    var d := ToolRowIsInRun(p, barriers, hardRanges, runs, |p.rows|, j);
    TileInOrder(p.rows, 0, |p.rawLines|, i, j);
    VisualRowOfRun(p, barriers, hardRanges, runs, keys, g, c, i);
    VisualRowOfRun(p, barriers, hardRanges, runs, keys, g, d, j);
    RunsInOrder(p, barriers, hardRanges, runs, |p.rows|, c, c);
    RunsInOrder(p, barriers, hardRanges, runs, |p.rows|, d, d);
    hide RunsUpTo, IsGrouping, CoversSource, HardRanges, BarrierSet, JoinableGap, IsRun, NoToolRows, MustStay;
    if c == d {
      SameRunSameRow(p, runs, keys, g, c, i, j);
      NeighboursInRun(p, barriers, hardRanges, runs[c], i, j);
      GapIsJoinable(p, barrierLines, i, j);
    } else {
      if d < c { RunsInOrder(p, barriers, hardRanges, runs, |p.rows|, d, c); assert false; }
      RunsInOrder(p, barriers, hardRanges, runs, |p.rows|, c, d);
      RowsOfRunsDiffer(p, runs, keys, g, c, d, g.rawToVisualRow[p.rows[i].rawRange.startLine]);
      NeighboursApart(p, barriers, hardRanges, runs, c, d, i, j);
      if MayBecomeOne(p, barrierLines, i, j) { GapIsJoinable(p, barrierLines, i, j); }
    }
  }

  lemma RowsOfRunsDiffer(p: Projection, runs: seq<PlaceholderRun>, keys: seq<Text>, g: GroupedProjection, c: nat,
      d: nat, v: nat)
    requires CoversSource(p) && c < d < |runs| && d < |keys|
    requires MembersAreToolRows(p, runs[c]) && MembersAreToolRows(p, runs[d]) && runs[c].startRow < runs[d].startRow
    ensures GroupRow(p, runs[c], keys[c], v) != GroupRow(p, runs[d], keys[d], v)
  {
    GroupRowRange(p, runs[c], keys[c], v);
    GroupRowRange(p, runs[d], keys[d], v);
    TileInOrder(p.rows, 0, |p.rawLines|, runs[c].startRow, runs[d].startRow);
  }

  /** A caller's barrier within a visual row lies inside a placeholder that was there before. */
  lemma CallersBarriersHold(p: Projection, barrierLines: seq<int>, runs: seq<PlaceholderRun>, keys: seq<Text>,
      g: GroupedProjection, v: nat, barrier: int) returns (i: nat)
    requires CoversSource(p) && IsGrouping(p, runs, keys, g)
    requires RunsUpTo(p, BarrierSet(barrierLines, |p.rawLines|), HardRanges(p), runs, |p.rows|)
    requires barrier in barrierLines && v < |g.rows|
    requires g.rows[v].row.rawRange.startLine < barrier < g.rows[v].row.rawRange.endLine
    ensures i < |p.rows| && p.rows[i].rawRange.startLine < barrier < p.rows[i].rawRange.endLine
  {
    var barriers, hardRanges := BarrierSet(barrierLines, |p.rawLines|), HardRanges(p);
    var c, k := OutputRowStandsFor(p, runs, keys, g.rows, |runs|, |p.rows|, v);
    if k < |p.rows| && p.rows[k].kind.Raw? && g.rows[v] == KeptRow(p, k, v) {
      i := k;
    } else {
      GroupRowRange(p, runs[c], keys[c], v);
      RunsInOrder(p, barriers, hardRanges, runs, |p.rows|, c, c);
      BarrierIsSafe(p, runs[c], barrier);
      var m := BarriersStayInsideMembers(p, barriers, hardRanges, runs[c], barrier);
      i := runs[c].members[m];
    }
  }

  lemma BarrierIsSafe(p: Projection, run: PlaceholderRun, barrier: int)
    requires CoversSource(p) && run.startRow <= run.endRow < |p.rows|
    requires p.rows[run.startRow].rawRange.startLine < barrier < p.rows[run.endRow].rawRange.endLine
    ensures IsSafeInteger(barrier) && 0 <= barrier <= |p.rawLines|
  {
    assert RowIsConsistent(p.rows[run.startRow], |p.rawLines|) && RowIsConsistent(p.rows[run.endRow], |p.rawLines|);
  }

  // ---- Keys from frame to frame ----------------------------------------------------------------------

  lemma {:induction false} AllGroupsValid(groups: seq<Group>, n: nat)
    requires n <= |groups| && forall i :: 0 <= i < n ==> UsableGroup(groups[i]) && KeyIsUnique(groups, i)
    ensures ValidPreviousGroups(groups, n) == groups[..n]
  {
    if n > 0 {
      AllGroupsValid(groups, n - 1);
      assert groups[..n] == groups[..n - 1] + [groups[n - 1]];
    }
  }

  /** The groups that the rows of a frame show, from the top. */
  function ShownGroups(rows: seq<GroupedRow>): seq<Group> {
    if rows == [] then []
    else
      var last := rows[|rows| - 1].placeholderGroup;
      ShownGroups(rows[..|rows| - 1]) + if last.Some? then [last.value] else []
  }

  function GroupsOf(p: Projection, runs: seq<PlaceholderRun>, keys: seq<Text>, n: nat): (groups: seq<Group>)
    requires n <= |runs| && n <= |keys| && forall c :: 0 <= c < n ==> MembersAreToolRows(p, runs[c])
  {
    seq(n, c requires 0 <= c < n => GroupOf(p, runs[c], keys[c]))
  }

  lemma {:induction false} RunsAreShown(p: Projection, runs: seq<PlaceholderRun>, keys: seq<Text>,
      out: seq<GroupedRow>, next: nat, rowIndex: nat)
    requires OutputUpTo(p, runs, keys, out, next, rowIndex) && next <= |runs| && next <= |keys|
    requires forall c :: 0 <= c < next ==> MembersAreToolRows(p, runs[c])
    ensures ShownGroups(out) == GroupsOf(p, runs, keys, next)
    decreases |out|
  {
    hide MembersAreToolRows, GroupOf;
    if out != [] {
      var v := |out| - 1;
      if 0 < rowIndex <= |p.rows| && out[v] == KeptRow(p, rowIndex - 1, v)
         && OutputUpTo(p, runs, keys, out[..v], next, rowIndex - 1) {
        RunsAreShown(p, runs, keys, out[..v], next, rowIndex - 1);
      } else {
        RunsAreShown(p, runs, keys, out[..v], next - 1, runs[next - 1].startRow);
        assert GroupsOf(p, runs, keys, next)
            == GroupsOf(p, runs, keys, next - 1) + [GroupOf(p, runs[next - 1], keys[next - 1])];
      }
    }
  }

  /** Members of runs are different rows, so they have different keys. */
  lemma MemberKeysDiffer(p: Projection, barriers: set<int>, hardRanges: seq<LineRange>, runs: seq<PlaceholderRun>,
      c: nat, m: nat, d: nat, n: nat)
    requires CoversSource(p) && RunsUpTo(p, barriers, hardRanges, runs, |p.rows|)
    requires c < |runs| && m < |runs[c].members| && d < |runs| && n < |runs[d].members| && (c < d || (c == d && m < n))
    requires MembersAreToolRows(p, runs[c]) && MembersAreToolRows(p, runs[d])
    ensures runs[c].members[m] < runs[d].members[n] && KeyAt(p, runs[c].members[m]) != KeyAt(p, runs[d].members[n])
  {
    hide CoversSource, RunsUpTo;
    RunsInOrder(p, barriers, hardRanges, runs, |p.rows|, c, d);
    RunsInOrder(p, barriers, hardRanges, runs, |p.rows|, d, d);
    MembersRise(p, barriers, hardRanges, runs[c].members, m, if c == d then n else |runs[c].members| - 1);
    MembersRise(p, barriers, hardRanges, runs[d].members, 0, n);
    KeysTellRowsApart(p, runs[c].members[m], runs[d].members[n]);
  }

  lemma KeysTellRowsApart(p: Projection, i: nat, j: nat)
    requires CoversSource(p) && IsToolRow(p, i) && IsToolRow(p, j) && i < j
    ensures KeyAt(p, i) != KeyAt(p, j)
  {
    assert p.rows[i].placeholderKey != p.rows[j].placeholderKey;
  }

  lemma {:induction false} MembersRise(p: Projection, barriers: set<int>, hardRanges: seq<LineRange>,
      members: seq<nat>, m: nat, n: nat)
    requires Linked(p, barriers, hardRanges, members) && m <= n < |members|
    ensures m < n ==> members[m] < members[n]
    decreases n
  {
    hide Linked, JoinableGap;
    if m < n {
      MembersRise(p, barriers, hardRanges, members, m, n - 1);
      LinkedAt(p, barriers, hardRanges, members, n);
    }
  }

  /** A run's member keys are in the group of that run and in no other. */
  lemma RunOwnsItsKeys(p: Projection, barriers: set<int>, hardRanges: seq<LineRange>, runs: seq<PlaceholderRun>,
      keys: seq<Text>, c: nat, key: Text, i: nat)
    requires CoversSource(p) && RunsUpTo(p, barriers, hardRanges, runs, |p.rows|) && |keys| == |runs|
    requires forall d :: 0 <= d < |runs| ==> MembersAreToolRows(p, runs[d])
    requires c < |runs| && MembersAreToolRows(p, runs[c]) && key in MemberKeys(p, runs[c].members)
    ensures OwnedBy(GroupsOf(p, runs, keys, |runs|), key, i) <==> i == c
  {
    hide CoversSource, RunsUpTo, OwnedBy;
    forall d: nat | d < |runs| && d != c
      ensures MembersAreToolRows(p, runs[d]) && key !in MemberKeys(p, runs[d].members)
    {
      assert MembersAreToolRows(p, runs[d]);
      RunsShareNoKey(p, barriers, hardRanges, runs, c, d, key);
    }
    var groups := GroupsOf(p, runs, keys, |runs|);
    hide MembersAreToolRows;
    assert forall d: nat :: d < |groups| ==> (key in groups[d].memberPlaceholderKeys <==> d == c);
    OwnerIsOnly(groups, key, c, i);
  }

  lemma OwnerIsOnly(groups: seq<Group>, key: Text, c: nat, i: nat)
    requires c < |groups| && forall d: nat :: d < |groups| ==> (key in groups[d].memberPlaceholderKeys <==> d == c)
    ensures OwnedBy(groups, key, i) <==> i == c
  {
  }

  lemma RunsShareNoKey(p: Projection, barriers: set<int>, hardRanges: seq<LineRange>, runs: seq<PlaceholderRun>,
      c: nat, d: nat, key: Text)
    requires CoversSource(p) && RunsUpTo(p, barriers, hardRanges, runs, |p.rows|)
    requires c < |runs| && d < |runs| && c != d && MembersAreToolRows(p, runs[c]) && MembersAreToolRows(p, runs[d])
    requires key in MemberKeys(p, runs[c].members)
    ensures key !in MemberKeys(p, runs[d].members)
  {
    hide CoversSource, RunsUpTo;
    var m :| 0 <= m < |runs[c].members| && MemberKeys(p, runs[c].members)[m] == key;
    forall n: nat | n < |runs[d].members| ensures MemberKeys(p, runs[d].members)[n] != key {
      if c < d { MemberKeysDiffer(p, barriers, hardRanges, runs, c, m, d, n); }
      else { MemberKeysDiffer(p, barriers, hardRanges, runs, d, n, c, m); }
    }
  }

  /** A group can hand its key on exactly when it shows some text under keys that are not blank. */
  lemma GroupIsUsable(p: Projection, barriers: set<int>, hardRanges: seq<LineRange>, runs: seq<PlaceholderRun>,
      c: nat, key: Text)
    requires CoversSource(p) && RunsUpTo(p, barriers, hardRanges, runs, |p.rows|)
    requires c < |runs| && MembersAreToolRows(p, runs[c])
    ensures UsableGroup(GroupOf(p, runs[c], key)) <==>
              && runs[c].line != [] && !TrimsToNothing(key)
              && forall m :: 0 <= m < |runs[c].members| ==> !TrimsToNothing(MemberKeys(p, runs[c].members)[m])
  {
    RunsInOrder(p, barriers, hardRanges, runs, |p.rows|, c, c);
    hide RunsUpTo, TrimsToNothing, Linked;
    MemberKeysAreApart(p, barriers, hardRanges, runs, c);
    RangeIsSafe(p, runs[c]);
    CountIsSafe(p, barriers, hardRanges, runs[c]);
    hide CoversSource, IsRun;
  }

  lemma MemberKeysAreApart(p: Projection, barriers: set<int>, hardRanges: seq<LineRange>, runs: seq<PlaceholderRun>,
      c: nat)
    requires CoversSource(p) && RunsUpTo(p, barriers, hardRanges, runs, |p.rows|)
    requires c < |runs| && MembersAreToolRows(p, runs[c])
    ensures var keys := MemberKeys(p, runs[c].members);
            forall m, n :: 0 <= m < n < |keys| ==> keys[m] != keys[n]
  {
    hide CoversSource, RunsUpTo;
    forall m: nat, n: nat | m < n < |runs[c].members|
      ensures MemberKeys(p, runs[c].members)[m] != MemberKeys(p, runs[c].members)[n]
    {
      MemberKeysDiffer(p, barriers, hardRanges, runs, c, m, c, n);
    }
  }

  lemma RangeIsSafe(p: Projection, run: PlaceholderRun)
    requires CoversSource(p) && run.startRow <= run.endRow < |p.rows|
    ensures var startLine, endLine := p.rows[run.startRow].rawRange.startLine, p.rows[run.endRow].rawRange.endLine;
            IsSafeInteger(startLine) && IsSafeInteger(endLine) && startLine < endLine
  {
    assert RowIsConsistent(p.rows[run.startRow], |p.rawLines|) && RowIsConsistent(p.rows[run.endRow], |p.rawLines|);
    hide Tile;
    TileInOrder(p.rows, 0, |p.rawLines|, run.startRow, run.endRow);
    TileInOrder(p.rows, 0, |p.rawLines|, run.endRow, run.endRow);
  }

  lemma CountIsSafe(p: Projection, barriers: set<int>, hardRanges: seq<LineRange>, run: PlaceholderRun)
    requires CoversSource(p) && IsRun(p, barriers, hardRanges, run) && MembersAreToolRows(p, run)
    ensures IsSafeInteger(|BlockIds(p, run.members)|) && |BlockIds(p, run.members)| > 0
  {
    MembersFit(p, barriers, hardRanges, run);
    hide CoversSource, IsRun;
    IdsAreFew(p, run.members);
  }

  /** There are no more members than source lines. */
  lemma MembersFit(p: Projection, barriers: set<int>, hardRanges: seq<LineRange>, run: PlaceholderRun)
    requires CoversSource(p) && IsRun(p, barriers, hardRanges, run)
    ensures IsSafeInteger(|run.members|)
  {
    assert RowIsConsistent(p.rows[run.endRow], |p.rawLines|);
    RisingFit(p, barriers, hardRanges, run.members, |run.members| - 1);
    RowsFit(p, run.endRow);
  }

  lemma {:induction false} RisingFit(p: Projection, barriers: set<int>, hardRanges: seq<LineRange>, members: seq<nat>,
      m: nat)
    requires Linked(p, barriers, hardRanges, members) && m < |members|
    ensures m <= members[m]
    decreases m
  {
    hide Linked, JoinableGap;
    if m > 0 {
      RisingFit(p, barriers, hardRanges, members, m - 1);
      LinkedAt(p, barriers, hardRanges, members, m);
    }
  }

  lemma {:induction false} RowsFit(p: Projection, i: nat)
    requires CoversSource(p) && i < |p.rows|
    ensures i < p.rows[i].rawRange.endLine
    decreases i
  {
    hide Tile;
    TileInOrder(p.rows, 0, |p.rawLines|, if i > 0 then i - 1 else i, i);
    TileInOrder(p.rows, 0, |p.rawLines|, i, i);
    if i > 0 {
      RowsFit(p, i - 1);
    }
  }

  lemma {:induction false} IdsAreFew(p: Projection, members: seq<nat>)
    requires forall m :: 0 <= m < |members| ==> IsToolRow(p, members[m])
    ensures |BlockIds(p, members)| <= |members| && (members != [] ==> |BlockIds(p, members)| > 0)
    decreases |members|
  {
    hide BlockIdAt, IsToolRow, BlockIds;
    if members == [] {
      NoIds(p);
    } else {
      var front, last := members[..|members| - 1], members[|members| - 1];
      IdsAreFew(p, front);
      OneIdMore(p, front, last);
      assert members == front + [last];
      OneMoreIsFew(BlockIds(p, front), BlockIdAt(p, last));
    }
  }

  lemma NoIds(p: Projection)
    ensures BlockIds(p, []) == {}
  {
  }

  lemma OneMoreIsFew<T>(items: set<T>, item: T)
    ensures 0 < |items + {item}| <= |items| + 1
  {
    assert item in items + {item};
    if item in items {
      assert items + {item} == items;
    } else {
      assert items + {item} - {item} == items;
    }
  }

  lemma OneIdMore(p: Projection, members: seq<nat>, last: nat)
    requires IsToolRow(p, last) && forall m :: 0 <= m < |members| ==> IsToolRow(p, members[m])
    ensures forall m :: 0 <= m < |members + [last]| ==> IsToolRow(p, (members + [last])[m])
    ensures BlockIds(p, members + [last]) == BlockIds(p, members) + {BlockIdAt(p, last)}
  {
    hide IsToolRow, BlockIdAt;
    var more := members + [last];
    assert more[|members|] == last && forall m :: 0 <= m < |members| ==> more[m] == members[m];
  }

  /** Only the group of the same run may hand its key to a run that has not changed. */
  lemma OnlyItsOwnGroup(p: Projection, barriers: set<int>, hardRanges: seq<LineRange>, runs: seq<PlaceholderRun>,
      keys: seq<Text>, candidates: seq<RunText>, c: nat, i: nat)
    requires CoversSource(p) && RunsUpTo(p, barriers, hardRanges, runs, |p.rows|) && |keys| == |runs|
    requires forall d :: 0 <= d < |runs| ==> MembersAreToolRows(p, runs[d])
    requires candidates == RunTexts(p, runs) && c < |runs|
    ensures MayCarry(GroupsOf(p, runs, keys, |runs|), candidates[c], i) <==> i == c
  {
    hide CoversSource, RunsUpTo, OwnedBy;
    assert |runs[c].members| > 0;
    hide MembersAreToolRows;
    var groups := GroupsOf(p, runs, keys, |runs|);
    assert candidates[c] == RunTextOf(p, runs[c]);
    assert MemberKeys(p, runs[c].members)[0] in candidates[c].memberKeys;
    forall key | key in candidates[c].memberKeys ensures OwnedBy(groups, key, i) <==> i == c {
      RunOwnsItsKeys(p, barriers, hardRanges, runs, keys, c, key, i);
    }
    assert i < |groups| ==> groups[i] == GroupOf(p, runs[i], keys[i]);
  }

  lemma TakesItsOwn(groups: seq<Group>, candidates: seq<RunText>, carriers: seq<Option<nat>>, c: nat)
    requires CarriesInOrder(groups, candidates, carriers) && c < |carriers| == |candidates|
    requires EachItsOwn(groups, candidates) && Floor(carriers, c) == c - 1
    ensures carriers[c] == Some(c)
  {
    hide MayCarry;
    assert IsEarliestCarrier(groups, candidates[c], Floor(carriers, c), carriers[c]);
    assert MayCarry(groups, candidates[c], c);
  }

  lemma {:induction false} EachTakesItsOwn(groups: seq<Group>, candidates: seq<RunText>, carriers: seq<Option<nat>>,
      n: nat)
    requires CarriesInOrder(groups, candidates, carriers) && n <= |carriers| == |candidates|
    requires EachItsOwn(groups, candidates)
    ensures Floor(carriers, n) == n - 1
    ensures forall c: nat :: c < n ==> carriers[c] == Some(c)
    decreases n
  {
    hide EachItsOwn, CarriesInOrder;
    if n > 0 {
      EachTakesItsOwn(groups, candidates, carriers, n - 1);
      TakesItsOwn(groups, candidates, carriers, n - 1);
    }
  }

  /** The frame's groups show some text, under keys that are not blank. */
  ghost predicate NothingBlank(p: Projection, runs: seq<PlaceholderRun>, keys: seq<Text>) {
    && (forall c :: 0 <= c < |runs| && c < |keys| ==> runs[c].line != [] && !TrimsToNothing(keys[c]))
    && (forall i: nat :: IsToolRow(p, i) ==> !TrimsToNothing(KeyAt(p, i)))
  }

  /** All groups that were shown can hand their keys on. */
  lemma ShownGroupsAreValid(p: Projection, barriers: set<int>, hardRanges: seq<LineRange>, runs: seq<PlaceholderRun>,
      keys: seq<Text>, g: GroupedProjection)
    requires CoversSource(p) && RunsUpTo(p, barriers, hardRanges, runs, |p.rows|)
    requires forall c :: 0 <= c < |runs| ==> MembersAreToolRows(p, runs[c])
    requires IsGrouping(p, runs, keys, g) && |keys| == |runs| && PairwiseDistinct(keys)
    requires NothingBlank(p, runs, keys)
    ensures var shown := ShownGroups(g.rows); ValidPreviousGroups(shown, |shown|) == GroupsOf(p, runs, keys, |runs|)
  {
    var groups := GroupsOf(p, runs, keys, |runs|);
    RunsAreShown(p, runs, keys, g.rows, |runs|, |p.rows|);
    hide CoversSource, RunsUpTo, IsGrouping, NothingBlank, ShownGroups, PairwiseDistinct, ValidPreviousGroups;
    AllGroupsUsable(p, barriers, hardRanges, runs, keys);
    hide UsableGroup, KeyIsUnique;
    AllGroupsValid(groups, |groups|);
    assert groups[..|groups|] == groups;
  }

  /** When the next frame has the same runs, wherever they now stand, every one of them keeps
      its key. */
  lemma UnchangedRunsKeepTheirKeys(p: Projection, barriers: set<int>, hardRanges: seq<LineRange>,
      runs: seq<PlaceholderRun>, keys: seq<Text>, g: GroupedProjection, candidates: seq<RunText>,
      keys': seq<Text>, carriers: seq<Option<nat>>)
    requires CoversSource(p) && RunsUpTo(p, barriers, hardRanges, runs, |p.rows|)
    requires forall c :: 0 <= c < |runs| ==> MembersAreToolRows(p, runs[c])
    requires IsGrouping(p, runs, keys, g) && |keys| == |runs| && PairwiseDistinct(keys)
    requires NothingBlank(p, runs, keys)
    requires candidates == RunTexts(p, runs) && |keys'| == |candidates|
    requires var shown := ShownGroups(g.rows);
             KeysCarried(ValidPreviousGroups(shown, |shown|), candidates, keys', carriers)
    ensures keys' == keys
  {
    hide CoversSource, RunsUpTo, IsGrouping, NothingBlank, KeysCarried, ShownGroups, PairwiseDistinct,
        ValidPreviousGroups, GroupsOf, EachItsOwn;
    ShownGroupsAreValid(p, barriers, hardRanges, runs, keys, g);
    EachHasItsOwnGroup(p, barriers, hardRanges, runs, keys, candidates);
    hide MembersAreToolRows, RunTexts;
    KeysOfGroups(p, runs, keys);
    KeysStay(GroupsOf(p, runs, keys, |runs|), candidates, keys', carriers);
  }

  lemma EachHasItsOwnGroup(p: Projection, barriers: set<int>, hardRanges: seq<LineRange>, runs: seq<PlaceholderRun>,
      keys: seq<Text>, candidates: seq<RunText>)
    requires CoversSource(p) && RunsUpTo(p, barriers, hardRanges, runs, |p.rows|) && |keys| == |runs|
    requires forall d :: 0 <= d < |runs| ==> MembersAreToolRows(p, runs[d])
    requires candidates == RunTexts(p, runs)
    ensures EachItsOwn(GroupsOf(p, runs, keys, |runs|), candidates)
  {
    hide CoversSource, RunsUpTo, MayCarry, MembersAreToolRows;
    forall c: nat, i: nat | c < |candidates|
      ensures MayCarry(GroupsOf(p, runs, keys, |runs|), candidates[c], i) <==> i == c
    {
      OnlyItsOwnGroup(p, barriers, hardRanges, runs, keys, candidates, c, i);
    }
  }

  /** Candidate `c` can take the key of group `c` and of no other. */
  ghost predicate EachItsOwn(groups: seq<Group>, candidates: seq<RunText>) {
    forall c: nat, i: nat :: c < |candidates| ==> (MayCarry(groups, candidates[c], i) <==> i == c)
  }

  lemma KeysStay(groups: seq<Group>, candidates: seq<RunText>, keys: seq<Text>, carriers: seq<Option<nat>>)
    requires KeysCarried(groups, candidates, keys, carriers) && |keys| == |candidates| == |groups|
    requires EachItsOwn(groups, candidates)
    ensures forall c :: 0 <= c < |keys| ==> keys[c] == groups[c].placeholderKey
  {
    hide IsFirstFree;
    EachTakesItsOwn(groups, candidates, carriers, |carriers|);
    hide CarriesInOrder, MayCarry;
  }

  lemma AllGroupsUsable(p: Projection, barriers: set<int>, hardRanges: seq<LineRange>, runs: seq<PlaceholderRun>,
      keys: seq<Text>)
    requires CoversSource(p) && RunsUpTo(p, barriers, hardRanges, runs, |p.rows|)
    requires forall c :: 0 <= c < |runs| ==> MembersAreToolRows(p, runs[c])
    requires |keys| == |runs| && PairwiseDistinct(keys)
    requires NothingBlank(p, runs, keys)
    ensures var groups := GroupsOf(p, runs, keys, |runs|);
            |groups| == |runs| && forall c :: 0 <= c < |groups| ==> UsableGroup(groups[c]) && KeyIsUnique(groups, c)
  {
    hide CoversSource, RunsUpTo, TrimsToNothing, UsableGroup;
    var groups := GroupsOf(p, runs, keys, |runs|);
    forall c: nat | c < |groups| ensures UsableGroup(groups[c]) && KeyIsUnique(groups, c) {
      GroupIsUsable(p, barriers, hardRanges, runs, c, keys[c]);
      assert forall m :: 0 <= m < |runs[c].members| ==> IsToolRow(p, runs[c].members[m]);
      assert groups[c] == GroupOf(p, runs[c], keys[c]);
    }
  }

  lemma KeysOfGroups(p: Projection, runs: seq<PlaceholderRun>, keys: seq<Text>)
    requires |keys| == |runs| && forall d :: 0 <= d < |runs| ==> MembersAreToolRows(p, runs[d])
    ensures |GroupsOf(p, runs, keys, |runs|)| == |runs|
    ensures forall c :: 0 <= c < |runs| ==> GroupsOf(p, runs, keys, |runs|)[c].placeholderKey == keys[c]
  {
    hide MembersAreToolRows;
  }
}
