/** Projection (`projectToolLines` of core/src/tool-projection.ts): each accepted collapse
    range becomes one placeholder row, every other source row stays as it is, and the maps
    between the two numberings are kept complete. */
module ToolProjection {
  import opened Wrappers
  import opened Text
  import opened StableSort
  import opened ToolBlocks
  import opened ToolValidation

  datatype RowKind = Raw | ToolPlaceholder

  datatype Row = Row(
    visualRow: nat, kind: RowKind, line: Text, rawStart: int, rawEndExclusive: int, rawRange: LineRange,
    block: Option<Block>, fingerprint: Option<Text>, placeholderKey: Option<Text>)

  datatype PlaceholderContext = PlaceholderContext(
    block: Block, collapseRange: LineRange, collapseIndex: nat, lineCount: int, placeholderKey: Text)

  datatype Projection = Projection(
    rawLines: seq<Text>, lines: seq<Text>, rows: seq<Row>,
    visualToRawRange: seq<LineRange>, rawToVisualRow: seq<nat>,
    projectedBlocks: seq<Block>, rejectedBlocks: seq<Rejection>, hiddenLineCount: int)

  function ProviderName(provider: Provider): Text {
    match provider
    case Claude => Ascii("claude")
    case Codex => Ascii("codex")
    case Grok => Ascii("grok")
  }

  function PlaceholderKey(block: Block, collapseIndex: nat): Text {
    Ascii("tool-placeholder:") + (ProviderName(block.provider) + (Ascii(":") + block.id))
      + Ascii(":part-") + Decimal(collapseIndex)
  }

  function ContextFor(block: Block, k: nat): PlaceholderContext
    requires k < |block.collapseRanges|
  {
    var range := block.collapseRanges[k];
    PlaceholderContext(block, range, k, range.endLine - range.startLine, PlaceholderKey(block, k))
  }

  function RawRow(visualRow: nat, rawLines: seq<Text>, rawRow: nat): Row
    requires rawRow < |rawLines|
  {
    Row(visualRow, Raw, rawLines[rawRow], rawRow, rawRow + 1, LineRange(rawRow, rawRow + 1), None, None, None)
  }

  function PlaceholderRow(visualRow: nat, block: Block, k: nat, placeholder: PlaceholderContext -> Text): Row
    requires k < |block.collapseRanges|
  {
    var range := block.collapseRanges[k];
    Row(visualRow, ToolPlaceholder, placeholder(ContextFor(block, k)), range.startLine, range.endLine, range,
        Some(block), Some(block.fingerprint), Some(PlaceholderKey(block, k)))
  }

  // ---- What a projection is ------------------------------------------------------------------------

  /** The row is in a range that an accepted block collapses. */
  ghost predicate Hidden(accepted: seq<Block>, row: int) {
    exists b :: 0 <= b < |accepted| && Covered(accepted[b].collapseRanges, row)
  }

  ghost predicate IsRawRow(rawLines: seq<Text>, accepted: seq<Block>, row: Row, v: nat) {
    exists r: nat :: r < |rawLines| && !Hidden(accepted, r) && row == RawRow(v, rawLines, r)
  }

  ghost predicate IsPlaceholder(accepted: seq<Block>, placeholder: PlaceholderContext -> Text, row: Row, v: nat,
      b: nat, k: nat) {
    b < |accepted| && k < |accepted[b].collapseRanges| && row == PlaceholderRow(v, accepted[b], k, placeholder)
  }

  ghost predicate IsPlaceholderRow(accepted: seq<Block>, placeholder: PlaceholderContext -> Text, row: Row, v: nat) {
    exists b: nat, k: nat :: IsPlaceholder(accepted, placeholder, row, v, b, k)
  }

  /** The rows' raw ranges are not empty and follow one another from `from` to `to`. */
  ghost predicate Tile(rows: seq<Row>, from: int, to: int) {
    if rows == [] then from == to
    else
      var last := rows[|rows| - 1].rawRange;
      last.startLine < last.endLine == to && Tile(rows[..|rows| - 1], from, last.startLine)
  }

  ghost predicate RowsFor(rawLines: seq<Text>, accepted: seq<Block>, placeholder: PlaceholderContext -> Text,
      rows: seq<Row>) {
    forall v :: 0 <= v < |rows| ==>
      IsRawRow(rawLines, accepted, rows[v], v) || IsPlaceholderRow(accepted, placeholder, rows[v], v)
  }

  /** Each source row points at the visual row that holds it. */
  ghost predicate Locates(rawToVisualRow: seq<nat>, rows: seq<Row>, n: nat) {
    |rawToVisualRow| == n
    && forall r: nat :: r < n ==> rawToVisualRow[r] < |rows| && Holds(rows[rawToVisualRow[r]].rawRange, r)
  }

  function RawRowCount(rows: seq<Row>): nat {
    if rows == [] then 0
    else RawRowCount(rows[..|rows| - 1]) + if rows[|rows| - 1].kind.Raw? then 1 else 0
  }

  ghost predicate IsProjection(rawLines: seq<Text>, accepted: seq<Block>, placeholder: PlaceholderContext -> Text,
      p: Projection) {
    && p.rawLines == rawLines
    && p.projectedBlocks == accepted
    && Tile(p.rows, 0, |rawLines|)
    && RowsFor(rawLines, accepted, placeholder, p.rows)
    && Locates(p.rawToVisualRow, p.rows, |rawLines|)
    && |p.lines| == |p.visualToRawRange| == |p.rows|
    && (forall v :: 0 <= v < |p.rows| ==> p.lines[v] == p.rows[v].line && p.visualToRawRange[v] == p.rows[v].rawRange)
    && p.hiddenLineCount == |rawLines| - RawRowCount(p.rows)
  }

  // ---- Accepted collapse ranges ---------------------------------------------------------------------

  ghost predicate IsCollapse(accepted: seq<Block>, b: nat, k: nat) {
    b < |accepted| && k < |accepted[b].collapseRanges|
  }

  function CollapseRange(accepted: seq<Block>, b: nat, k: nat): LineRange
    requires b < |accepted| && k < |accepted[b].collapseRanges|
  {
    accepted[b].collapseRanges[k]
  }

  lemma CollapseRangeIsValid(accepted: seq<Block>, n: nat, b: nat, k: nat)
    requires InSequence(accepted, n) && IsCollapse(accepted, b, k)
    ensures var range := CollapseRange(accepted, b, k);
            0 <= range.startLine < range.endLine <= n && Contains(accepted[b].sourceRange, range)
  {
    assert WellProved(accepted[b], n);
    assert ValidRange(accepted[b].collapseRanges[k], n);
  }

  /** Two different collapse ranges of accepted blocks share no row. */
  lemma CollapseRangesAreApart(accepted: seq<Block>, n: nat, b: nat, k: nat, b': nat, k': nat)
    requires InSequence(accepted, n) && IsCollapse(accepted, b, k) && IsCollapse(accepted, b', k')
    requires b < b' || (b == b' && k < k')
    ensures CollapseRange(accepted, b, k).endLine <= CollapseRange(accepted, b', k').startLine
  {
    CollapseRangeIsValid(accepted, n, b, k);
    CollapseRangeIsValid(accepted, n, b', k');
    assert WellProved(accepted[b], n);
    if b == b' {
      OrderedIsApart(accepted[b].collapseRanges, n, k, k');
    }
  }

  lemma SharedRowSameRange(accepted: seq<Block>, n: nat, b: nat, k: nat, b': nat, k': nat, row: int)
    requires InSequence(accepted, n) && IsCollapse(accepted, b, k) && IsCollapse(accepted, b', k')
    requires Holds(CollapseRange(accepted, b, k), row) && Holds(CollapseRange(accepted, b', k'), row)
    ensures b == b' && k == k'
  {
    if b < b' || (b == b' && k < k') {
      CollapseRangesAreApart(accepted, n, b, k, b', k');
    } else if b' < b || (b == b' && k' < k) {
      CollapseRangesAreApart(accepted, n, b', k', b, k);
    }
  }

  // ---- Building the rows -------------------------------------------------------------------------------

  /** `collapseAt` finds every accepted collapse range by its first row. */
  ghost predicate FindsCollapses(accepted: seq<Block>, collapseAt: map<int, (nat, nat)>) {
    && (forall s :: s in collapseAt ==>
          && IsCollapse(accepted, collapseAt[s].0, collapseAt[s].1)
          && CollapseRange(accepted, collapseAt[s].0, collapseAt[s].1).startLine == s)
    && (forall b: nat, k: nat :: IsCollapse(accepted, b, k) ==>
          CollapseRange(accepted, b, k).startLine in collapseAt)
  }

  method IndexCollapses(accepted: seq<Block>) returns (collapseAt: map<int, (nat, nat)>)
    ensures FindsCollapses(accepted, collapseAt)
  {
    collapseAt := map[];
    for b := 0 to |accepted|
      invariant forall s :: s in collapseAt ==>
                  && IsCollapse(accepted, collapseAt[s].0, collapseAt[s].1)
                  && CollapseRange(accepted, collapseAt[s].0, collapseAt[s].1).startLine == s
      invariant forall b': nat, k: nat :: b' < b && IsCollapse(accepted, b', k) ==>
                  CollapseRange(accepted, b', k).startLine in collapseAt
    {
      for k := 0 to |accepted[b].collapseRanges|
        invariant forall s :: s in collapseAt ==>
                    && IsCollapse(accepted, collapseAt[s].0, collapseAt[s].1)
                    && CollapseRange(accepted, collapseAt[s].0, collapseAt[s].1).startLine == s
        invariant forall b': nat, k': nat :: IsCollapse(accepted, b', k') && (b' < b || (b' == b && k' < k)) ==>
                    CollapseRange(accepted, b', k').startLine in collapseAt
      {
        collapseAt := collapseAt[accepted[b].collapseRanges[k].startLine := (b, k)];
      }
    }
  }

  /** No collapse range has begun before `row` without having ended by it. */
  ghost predicate AtSeam(accepted: seq<Block>, row: int) {
    forall b: nat, k: nat :: IsCollapse(accepted, b, k) ==>
      !(CollapseRange(accepted, b, k).startLine < row < CollapseRange(accepted, b, k).endLine)
  }

  lemma SeamAtStart(accepted: seq<Block>, n: nat)
    requires InSequence(accepted, n)
    ensures AtSeam(accepted, 0)
  {
    forall b: nat, k: nat | IsCollapse(accepted, b, k) ensures CollapseRange(accepted, b, k).startLine >= 0 {
      CollapseRangeIsValid(accepted, n, b, k);
    }
  }

  /** A row at a seam where no collapse range starts is not hidden, and the next row is a seam. */
  lemma SeamAfterRaw(accepted: seq<Block>, collapseAt: map<int, (nat, nat)>, row: int)
    requires FindsCollapses(accepted, collapseAt) && AtSeam(accepted, row) && row !in collapseAt
    ensures !Hidden(accepted, row) && AtSeam(accepted, row + 1)
  {
    forall b: nat, k: nat | IsCollapse(accepted, b, k) ensures !Holds(CollapseRange(accepted, b, k), row) {
      assert CollapseRange(accepted, b, k).startLine in collapseAt;
    }
    if Hidden(accepted, row) {
      var b, k := HiddenBy(accepted, row);
    }
  }

  lemma HiddenBy(accepted: seq<Block>, row: int) returns (b: nat, k: nat)
    requires Hidden(accepted, row)
    ensures IsCollapse(accepted, b, k) && Holds(CollapseRange(accepted, b, k), row)
  {
    b :| b < |accepted| && Covered(accepted[b].collapseRanges, row);
    k :| k < |accepted[b].collapseRanges| && Holds(accepted[b].collapseRanges[k], row);
  }

  lemma SeamAfterCollapse(accepted: seq<Block>, n: nat, b: nat, k: nat)
    requires InSequence(accepted, n) && IsCollapse(accepted, b, k)
    ensures AtSeam(accepted, CollapseRange(accepted, b, k).endLine)
  {
    CollapseRangeIsValid(accepted, n, b, k);
    var end := CollapseRange(accepted, b, k).endLine;
    forall b': nat, k': nat | IsCollapse(accepted, b', k')
      ensures !(CollapseRange(accepted, b', k').startLine < end < CollapseRange(accepted, b', k').endLine)
    {
      if CollapseRange(accepted, b', k').startLine < end < CollapseRange(accepted, b', k').endLine {
        SharedRowSameRange(accepted, n, b, k, b', k', end - 1);
      }
    }
  }

  lemma TileExtends(rows: seq<Row>, from: int, to: int, row: Row)
    requires Tile(rows, from, to) && row.rawRange.startLine == to < row.rawRange.endLine
    ensures Tile(rows + [row], from, row.rawRange.endLine)
    ensures RawRowCount(rows + [row]) == RawRowCount(rows) + if row.kind.Raw? then 1 else 0
  {
    assert (rows + [row])[..|rows|] == rows;
  }

  lemma RowsForExtends(rawLines: seq<Text>, accepted: seq<Block>, placeholder: PlaceholderContext -> Text,
      rows: seq<Row>, row: Row)
    requires RowsFor(rawLines, accepted, placeholder, rows)
    requires IsRawRow(rawLines, accepted, row, |rows|) || IsPlaceholderRow(accepted, placeholder, row, |rows|)
    ensures RowsFor(rawLines, accepted, placeholder, rows + [row])
  {
  }

  /** Progress of the projection loop up to source row `rawRow`. */
  ghost predicate ProjectedTo(rawLines: seq<Text>, accepted: seq<Block>, placeholder: PlaceholderContext -> Text,
                              rows: seq<Row>, located: seq<nat>, rawRow: int) {
    && 0 <= rawRow <= |rawLines|
    && Tile(rows, 0, rawRow)
    && RowsFor(rawLines, accepted, placeholder, rows)
    && |located| == |rawLines|
    && (forall r: nat :: r < rawRow ==> located[r] < |rows| && Holds(rows[located[r]].rawRange, r))
    && AtSeam(accepted, rawRow)
  }

  lemma ProjectRaw(rawLines: seq<Text>, accepted: seq<Block>, placeholder: PlaceholderContext -> Text,
                   collapseAt: map<int, (nat, nat)>, rows: seq<Row>, located: seq<nat>, rawRow: nat)
    requires ProjectedTo(rawLines, accepted, placeholder, rows, located, rawRow)
    requires FindsCollapses(accepted, collapseAt) && rawRow < |rawLines| && rawRow !in collapseAt
    ensures var row := RawRow(|rows|, rawLines, rawRow);
            && ProjectedTo(rawLines, accepted, placeholder, rows + [row], located[rawRow := |rows|], rawRow + 1)
            && RawRowCount(rows + [row]) == RawRowCount(rows) + 1
  {
    hide Tile, RowsFor, RawRowCount, AtSeam, Hidden, FindsCollapses;
    var row := RawRow(|rows|, rawLines, rawRow);
    SeamAfterRaw(accepted, collapseAt, rawRow);
    assert IsRawRow(rawLines, accepted, row, |rows|);
    TileExtends(rows, 0, rawRow, row);
    RowsForExtends(rawLines, accepted, placeholder, rows, row);
  }

  lemma ProjectCollapse(rawLines: seq<Text>, accepted: seq<Block>, placeholder: PlaceholderContext -> Text,
                        rows: seq<Row>, located: seq<nat>, relocated: seq<nat>, rawRow: nat, b: nat, k: nat)
    requires InSequence(accepted, |rawLines|)
    requires ProjectedTo(rawLines, accepted, placeholder, rows, located, rawRow)
    requires IsCollapse(accepted, b, k) && CollapseRange(accepted, b, k).startLine == rawRow
    requires |relocated| == |located|
    requires forall r: nat :: r < |located| ==>
               relocated[r] == if Holds(CollapseRange(accepted, b, k), r) then |rows| else located[r]
    ensures var row := PlaceholderRow(|rows|, accepted[b], k, placeholder);
            && ProjectedTo(rawLines, accepted, placeholder, rows + [row], relocated,
                CollapseRange(accepted, b, k).endLine)
            && RawRowCount(rows + [row]) == RawRowCount(rows)
  {
    hide Tile, RowsFor, RawRowCount, AtSeam, Hidden, InSequence, PlaceholderKey;
    var row := PlaceholderRow(|rows|, accepted[b], k, placeholder);
    CollapseRangeIsValid(accepted, |rawLines|, b, k);
    SeamAfterCollapse(accepted, |rawLines|, b, k);
    assert IsPlaceholder(accepted, placeholder, row, |rows|, b, k);
    TileExtends(rows, 0, rawRow, row);
    RowsForExtends(rawLines, accepted, placeholder, rows, row);
  }

  function RowLines(rows: seq<Row>): (lines: seq<Text>)
    ensures |lines| == |rows|
  {
    seq(|rows|, v requires 0 <= v < |rows| => rows[v].line)
  }

  function RowRanges(rows: seq<Row>): (ranges: seq<LineRange>)
    ensures |ranges| == |rows|
  {
    seq(|rows|, v requires 0 <= v < |rows| => rows[v].rawRange)
  }

  method FillRows(located: array<nat>, range: LineRange, visualRow: nat)
    requires 0 <= range.startLine <= range.endLine <= located.Length
    modifies located
    ensures forall r: nat :: r < located.Length ==>
              located[r] == if range.startLine <= r < range.endLine then visualRow else old(located[r])
  {
    for hiddenRow := range.startLine to range.endLine
      invariant forall r: nat :: r < located.Length ==>
                  located[r] == if range.startLine <= r < hiddenRow then visualRow else old(located[r])
    {
      located[hiddenRow] := visualRow;
    }
  }

  method ProjectRows(rawLines: seq<Text>, accepted: seq<Block>, placeholder: PlaceholderContext -> Text)
    returns (rows: seq<Row>, rawToVisualRow: seq<nat>, hiddenLineCount: int)
    requires InSequence(accepted, |rawLines|)
    ensures Tile(rows, 0, |rawLines|) && RowsFor(rawLines, accepted, placeholder, rows)
    ensures Locates(rawToVisualRow, rows, |rawLines|)
    ensures hiddenLineCount == |rawLines| - RawRowCount(rows)
  {
    var collapseAt := IndexCollapses(accepted);
    SeamAtStart(accepted, |rawLines|);
    hide InSequence, ProjectedTo, FindsCollapses, AtSeam, RowsFor, Tile, IsCollapse, Locates;
    rows := [];
    var located := new nat[|rawLines|](_ => 0);
    hiddenLineCount := 0;
    var rawRow: nat := 0;
    ProjectNothing(rawLines, accepted, placeholder, located[..]);
    while rawRow < |rawLines|
      invariant rawRow <= |rawLines|
      invariant ProjectedTo(rawLines, accepted, placeholder, rows, located[..], rawRow)
      invariant hiddenLineCount == rawRow - RawRowCount(rows)
    {
      ghost var before := located[..];
      var visualRow := |rows|;
      if rawRow !in collapseAt {
        ProjectRaw(rawLines, accepted, placeholder, collapseAt, rows, before, rawRow);
        rows := rows + [RawRow(visualRow, rawLines, rawRow)];
        located[rawRow] := visualRow;
        assert located[..] == before[rawRow := visualRow];
        rawRow := rawRow + 1;
      } else {
        CollapseFound(rawLines, accepted, collapseAt, rawRow);
        var (b, k) := collapseAt[rawRow];
        var range := accepted[b].collapseRanges[k];
        FillRows(located, range, visualRow);
        ProjectCollapse(rawLines, accepted, placeholder, rows, before, located[..], rawRow, b, k);
        rows := rows + [PlaceholderRow(visualRow, accepted[b], k, placeholder)];
        hiddenLineCount := hiddenLineCount + (range.endLine - range.startLine);
        rawRow := range.endLine;
      }
    }
    rawToVisualRow := located[..];
    ProjectedIsComplete(rawLines, accepted, placeholder, rows, rawToVisualRow);
  }

  lemma ProjectedIsComplete(rawLines: seq<Text>, accepted: seq<Block>, placeholder: PlaceholderContext -> Text,
                            rows: seq<Row>, located: seq<nat>)
    requires ProjectedTo(rawLines, accepted, placeholder, rows, located, |rawLines|)
    ensures Tile(rows, 0, |rawLines|) && RowsFor(rawLines, accepted, placeholder, rows)
    ensures Locates(located, rows, |rawLines|)
  {
  }

  lemma ProjectNothing(rawLines: seq<Text>, accepted: seq<Block>, placeholder: PlaceholderContext -> Text,
      located: seq<nat>)
    requires AtSeam(accepted, 0) && |located| == |rawLines|
    ensures ProjectedTo(rawLines, accepted, placeholder, [], located, 0)
  {
  }

  lemma CollapseFound(rawLines: seq<Text>, accepted: seq<Block>, collapseAt: map<int, (nat, nat)>, rawRow: nat)
    requires InSequence(accepted, |rawLines|) && FindsCollapses(accepted, collapseAt) && rawRow in collapseAt
    ensures var (b, k) := collapseAt[rawRow];
            && IsCollapse(accepted, b, k) && b < |accepted| && k < |accepted[b].collapseRanges|
            && CollapseRange(accepted, b, k).startLine == rawRow < CollapseRange(accepted, b, k).endLine <= |rawLines|
  {
    var (b, k) := collapseAt[rawRow];
    CollapseRangeIsValid(accepted, |rawLines|, b, k);
  }

  /** Rows of an untouched source. */
  method RawProjectionRows(rawLines: seq<Text>) returns (rows: seq<Row>, rawToVisualRow: seq<nat>)
    ensures |rows| == |rawToVisualRow| == |rawLines|
    ensures forall r :: 0 <= r < |rawLines| ==> rows[r] == RawRow(r, rawLines, r) && rawToVisualRow[r] == r
  {
    rows := seq(|rawLines|, r requires 0 <= r < |rawLines| => RawRow(r, rawLines, r));
    rawToVisualRow := seq(|rawLines|, r requires 0 <= r < |rawLines| => r);
  }

  lemma {:induction false} RawRowsTile(rawLines: seq<Text>, rows: seq<Row>, n: nat)
    requires n <= |rawLines| && |rows| == n && forall r :: 0 <= r < n ==> rows[r] == RawRow(r, rawLines, r)
    ensures Tile(rows, 0, n) && RawRowCount(rows) == n
    decreases n
  {
    if n > 0 {
      RawRowsTile(rawLines, rows[..n - 1], n - 1);
    }
  }

  /** Collapse exactly the ranges of the blocks that stand. */
  method ProjectToolLines(rawLines: seq<Text>, blocks: seq<Block>, enabled: bool,
      placeholder: PlaceholderContext -> Text)
    returns (p: Projection)
    ensures IsProjection(rawLines, p.projectedBlocks, placeholder, p)
    ensures InSequence(p.projectedBlocks, |rawLines|)
    ensures enabled ==> IsValidation(blocks, |rawLines|, Validation(p.projectedBlocks, p.rejectedBlocks))
    ensures !enabled ==> p.projectedBlocks == [] && p.rejectedBlocks == []
    ensures p.projectedBlocks == [] ==> p.lines == rawLines
  {
    var validation := Validation([], []);
    if enabled {
      validation := ValidateToolCollapseBlocks(rawLines, blocks);
      AcceptedAreInSequence(blocks, |rawLines|, validation);
    }
    var accepted := validation.acceptedBlocks;
    hide IsValidation, Tile, RowsFor, RawRowCount, InSequence, Locates, IsProjection;
    var rows, rawToVisualRow, hiddenLineCount;
    if |accepted| == 0 {
      rows, rawToVisualRow := RawProjectionRows(rawLines);
      hiddenLineCount := 0;
      RawRowsProject(rawLines, placeholder, rows, rawToVisualRow);
    } else {
      rows, rawToVisualRow, hiddenLineCount := ProjectRows(rawLines, accepted, placeholder);
    }
    p := Projection(rawLines, RowLines(rows), rows, RowRanges(rows), rawToVisualRow,
                    accepted, validation.rejectedBlocks, hiddenLineCount);
    RowsMakeProjection(rawLines, placeholder, p);
  }

  lemma RowsMakeProjection(rawLines: seq<Text>, placeholder: PlaceholderContext -> Text, p: Projection)
    requires p.rawLines == rawLines && p.lines == RowLines(p.rows) && p.visualToRawRange == RowRanges(p.rows)
    requires Tile(p.rows, 0, |rawLines|) && RowsFor(rawLines, p.projectedBlocks, placeholder, p.rows)
    requires Locates(p.rawToVisualRow, p.rows, |rawLines|)
    requires p.hiddenLineCount == |rawLines| - RawRowCount(p.rows)
    ensures IsProjection(rawLines, p.projectedBlocks, placeholder, p)
  {
  }

  lemma RawRowsProject(rawLines: seq<Text>, placeholder: PlaceholderContext -> Text, rows: seq<Row>,
      rawToVisualRow: seq<nat>)
    requires |rows| == |rawToVisualRow| == |rawLines|
    requires forall r :: 0 <= r < |rawLines| ==> rows[r] == RawRow(r, rawLines, r) && rawToVisualRow[r] == r
    ensures Tile(rows, 0, |rawLines|) && RowsFor(rawLines, [], placeholder, rows)
    ensures Locates(rawToVisualRow, rows, |rawLines|)
    ensures RawRowCount(rows) == |rawLines| && RowLines(rows) == rawLines
  {
    RawRowsTile(rawLines, rows, |rawLines|);
    forall v | 0 <= v < |rows| ensures IsRawRow(rawLines, [], rows[v], v) {
      assert rows[v] == RawRow(v, rawLines, v);
    }
  }

  // ---- What follows for the maps --------------------------------------------------------------------

  /** Tiling rows lie in order. */
  lemma {:induction false} TileInOrder(rows: seq<Row>, from: int, to: int, i: nat, j: nat)
    requires Tile(rows, from, to) && i <= j < |rows|
    ensures from <= rows[i].rawRange.startLine < rows[i].rawRange.endLine <= to
    ensures i < j ==> rows[i].rawRange.endLine <= rows[j].rawRange.startLine
    ensures j == i + 1 ==> rows[i].rawRange.endLine == rows[j].rawRange.startLine
    ensures i == 0 ==> rows[i].rawRange.startLine == from
    ensures j == |rows| - 1 ==> rows[j].rawRange.endLine == to
    decreases |rows|
  {
    var rest := rows[..|rows| - 1];
    var last := rows[|rows| - 1].rawRange;
    TileStretches(rest, from, last.startLine);
    if i < |rest| {
      TileInOrder(rest, from, last.startLine, i, if j < |rest| then j else |rest| - 1);
    }
  }

  lemma {:induction false} TileStretches(rows: seq<Row>, from: int, to: int)
    requires Tile(rows, from, to)
    ensures from <= to && (from == to <==> rows == [])
    decreases |rows|
  {
    if rows != [] {
      TileStretches(rows[..|rows| - 1], from, rows[|rows| - 1].rawRange.startLine);
    }
  }

  /** `rawToVisualRow` is the one map that inverts the tiling, and it never goes back. */
  lemma LocatesIsMonotoneInverse(rows: seq<Row>, located: seq<nat>, n: nat)
    requires Tile(rows, 0, n) && Locates(located, rows, n)
    ensures forall r: nat, v: nat :: r < n && v < |rows| ==> (Holds(rows[v].rawRange, r) <==> located[r] == v)
    ensures forall r: nat, s: nat :: r <= s < n ==> located[r] <= located[s]
  {
    forall r: nat, v: nat | r < n && v < |rows| && Holds(rows[v].rawRange, r) ensures located[r] == v {
      var w := located[r];
      if v < w { TileInOrder(rows, 0, n, v, w); } else if w < v { TileInOrder(rows, 0, n, w, v); }
    }
    forall r: nat, s: nat | r <= s < n ensures located[r] <= located[s] {
      if located[s] < located[r] {
        TileInOrder(rows, 0, n, located[s], located[r]);
      }
    }
  }

  /** Nothing outside the accepted collapse ranges is hidden; in particular protected rows are
      shown as themselves. */
  lemma UnhiddenRowsStayRaw(rawLines: seq<Text>, accepted: seq<Block>, placeholder: PlaceholderContext -> Text,
      p: Projection, r: nat)
    requires IsProjection(rawLines, accepted, placeholder, p) && r < |rawLines|
    ensures var row := p.rows[p.rawToVisualRow[r]];
            if Hidden(accepted, r) then row.kind.ToolPlaceholder?
            else row == RawRow(p.rawToVisualRow[r], rawLines, r)
  {
    var v := p.rawToVisualRow[r];
    var row := p.rows[v];
    if IsPlaceholderRow(accepted, placeholder, row, v) {
      var b: nat, k: nat :| IsPlaceholder(accepted, placeholder, row, v, b, k);
      assert Covered(accepted[b].collapseRanges, r);
    }
  }

  lemma ProtectedRowsStayRaw(rawLines: seq<Text>, accepted: seq<Block>, placeholder: PlaceholderContext -> Text,
      p: Projection,
                             b: nat, r: nat)
    requires IsProjection(rawLines, accepted, placeholder, p) && InSequence(accepted, |rawLines|)
    requires b < |accepted| && Covered(accepted[b].protectedRanges, r)
    ensures r < |rawLines| && p.rows[p.rawToVisualRow[r]] == RawRow(p.rawToVisualRow[r], rawLines, r)
  {
    ProtectedIsUnhidden(accepted, |rawLines|, b, r);
    UnhiddenRowsStayRaw(rawLines, accepted, placeholder, p, r);
  }

  lemma ProtectedIsUnhidden(accepted: seq<Block>, n: nat, b: nat, r: int)
    requires InSequence(accepted, n) && b < |accepted| && Covered(accepted[b].protectedRanges, r)
    ensures 0 <= r < n && !Hidden(accepted, r)
  {
    assert WellProved(accepted[b], n);
    var j :| 0 <= j < |accepted[b].protectedRanges| && Holds(accepted[b].protectedRanges[j], r);
    assert ValidRange(accepted[b].protectedRanges[j], n)
        && Contains(accepted[b].sourceRange, accepted[b].protectedRanges[j]);
    assert Holds(accepted[b].sourceRange, r);
    forall c: nat, k: nat | IsCollapse(accepted, c, k) ensures !Holds(CollapseRange(accepted, c, k), r) {
      CollapseRangeIsValid(accepted, n, c, k);
      if c < b {
        SourcesAreApart(accepted, n, c, b, r);
      } else if b < c {
        SourcesAreApart(accepted, n, b, c, r);
      } else {
        assert !Covered(accepted[b].collapseRanges, r);
      }
    }
    if Hidden(accepted, r) {
      var c, k := HiddenBy(accepted, r);
    }
  }

  lemma SourcesAreApart(accepted: seq<Block>, n: nat, b: nat, c: nat, row: int)
    requires InSequence(accepted, n) && b < c < |accepted|
    ensures !(Holds(accepted[b].sourceRange, row) && Holds(accepted[c].sourceRange, row))
  {
  }

  // ---- Placeholder keys ---------------------------------------------------------------------------------

  lemma ProviderLetters(a: Provider)
    ensures var name := ProviderName(a);
            && |name| >= 2
            && (a.Claude? ==> name[0] == 0x63 && name[1] == 0x6c)
            && (a.Codex? ==> name[0] == 0x63 && name[1] == 0x6f)
            && (a.Grok? ==> name[0] == 0x67)
  {
  }

  lemma ProviderNamesSplit(a: Provider, b: Provider, restA: Text, restB: Text)
    requires ProviderName(a) + restA == ProviderName(b) + restB
    ensures a == b && restA == restB
  {
    var s, t := ProviderName(a) + restA, ProviderName(b) + restB;
    ProviderLetters(a);
    ProviderLetters(b);
    assert s[0] == ProviderName(a)[0] == ProviderName(b)[0] && s[1] == ProviderName(a)[1] == ProviderName(b)[1];
    DropHead(ProviderName(a), restA, restB);
  }

  /** Placeholder keys tell any two collapse ranges apart. */
  lemma PlaceholderKeysDiffer(accepted: seq<Block>, n: nat, b: nat, k: nat, b': nat, k': nat)
    requires InSequence(accepted, n) && IsCollapse(accepted, b, k) && IsCollapse(accepted, b', k')
    requires PlaceholderKey(accepted[b], k) == PlaceholderKey(accepted[b'], k')
    ensures b == b' && k == k'
  {
    var part := Ascii(":part-");
    assert part[|part| - 1] == 0x2d;
    hide Ascii, Decimal, ProviderName, InSequence;
    var head, colon := Ascii("tool-placeholder:"), Ascii(":");
    var x, y := accepted[b], accepted[b'];
    var tail1, tail2 := ProviderName(x.provider) + (colon + x.id), ProviderName(y.provider) + (colon + y.id);
    SuffixSplitsOnce(head + tail1, head + tail2, part, k, k');
    DropHead(head, tail1, tail2);
    ProviderNamesSplit(x.provider, y.provider, colon + x.id, colon + y.id);
    DropHead(colon, x.id, y.id);
  }

  lemma DropHead(head: Text, a: Text, b: Text)
    requires head + a == head + b
    ensures a == b
  {
    assert a == (head + a)[|head|..];
    assert b == (head + b)[|head|..];
  }
}
