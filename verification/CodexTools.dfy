/** Finding finished Codex events in terminal rows (core/src/codex-tools.ts): a header is taken
    only with a sealed body, and every block found passes the projection's validation. The
    regular expressions and paint tracking are taken from outside. */
module CodexTools {
  import opened Wrappers
  import opened Text
  import opened Sequences
  import opened TerminalControls
  import opened ToolBlocks
  import opened ToolValidation

  type Rows = seq<Text>

  /** What a header row announces. */
  datatype Header =
    | RunGroupHeader(count: Text, plural: Text) | RanHeader(fragment: Text)
    | WaitedHeader(tail: Text) | InteractionHeader(tail: Text)
    | WaitingForAgents | FinishedWaiting | ViewedImage
    | AgentInteractionHeader(agent: Text) | StartedHeader(agent: Text) | CompletedHeader(agent: Text)
    | EditedHeader(path: Text, added: Text, removed: Text)
    | NoHeader

  /** Row tests, by the expressions and the paint of the rows. An acceptor sees the header, the
      rows it was asked about before, and the row itself. */
  datatype Rules = Rules(
    complete: Text -> bool,
    guarded: (Text, bool) -> bool,
    header: Text -> Header,
    finishedWaiting: Text -> bool,
    ranDetail: (Text, seq<Text>, Text) -> bool,
    sawDimDetail: (Text, seq<Text>) -> bool,
    commandDetail: (Text, seq<Text>, Text) -> bool,
    continuationDetail: Text -> bool,
    dimDetail: (Text, seq<Text>, Text) -> bool,
    treeDetail: Text -> bool,
    treeReset: Text -> bool,
    dimRow: Text -> bool,
    visible: Text -> Text,
    digest: (BlockKind, Outcome, Text) -> Text)

  const MAX_ROW_CHARS: nat := 65536
  const MAX_LIMIT: nat := 100_000
  const MAX_BLOCK_CHARS: nat := 16 * 1024 * 1024

  /** Rows that no block may hide: oversized, oddly controlled, or guarded by their words. */
  predicate IsProtectedSemanticRow(rules: Rules, raw: Text, allowDimBoundaryPrefix: bool) {
    |raw| > MAX_ROW_CHARS || !rules.complete(raw) || rules.guarded(raw, allowDimBoundaryPrefix)
  }

  predicate IsSealRow(raw: Text) {
    IsBlankRow(raw)
  }

  // ---- Sealed bodies ------------------------------------------------------------------------------

  /** Which detail rows a kind of header owns. */
  datatype Detail = RanDetail | CommandDetail | WaitResult | ImageDetail | EditDetail

  predicate Accepts(rules: Rules, detail: Detail, header: Text, asked: seq<Text>, raw: Text, bodyOffset: nat) {
    match detail
    case RanDetail => rules.ranDetail(header, asked, raw)
    case CommandDetail => rules.commandDetail(header, asked, raw)
    case WaitResult => if bodyOffset == 0 then rules.treeReset(raw) else rules.dimRow(raw)
    case ImageDetail => if bodyOffset == 0 then rules.treeDetail(raw) else rules.dimRow(raw)
    case EditDetail => rules.dimDetail(header, asked, raw)
  }

  /** Only command bodies may hold blank rows, and soften the guard behind their first row. */
  predicate MayContinue(detail: Detail) {
    detail == CommandDetail
  }

  /** A search for the end of one body. */
  datatype Search = Search(rows: Rows, startLine: nat, maxBlockLines: nat, maxBlockChars: nat, detail: Detail)
  {
    predicate Valid() {
      startLine < |rows|
    }

    function MaximumEnd(): (end: nat)
      ensures end <= |rows| && end <= startLine + maxBlockLines + 1
    {
      if |rows| < startLine + maxBlockLines + 1 then |rows| else startLine + maxBlockLines + 1
    }
  }

  function Chars(rows: Rows, from: nat, to: nat): nat
    requires from <= to <= |rows|
  {
    if from == to then 0 else Chars(rows, from, to - 1) + |rows[to - 1]|
  }

  lemma {:induction false} MoreRowsMoreChars(rows: Rows, from: nat, mid: nat, to: nat)
    requires from <= mid <= to <= |rows|
    ensures Chars(rows, from, mid) <= Chars(rows, from, to)
  {
    if mid < to {
      MoreRowsMoreChars(rows, from, mid, to - 1);
    }
  }

  /** The rows that are not seals: those an acceptor was asked about. */
  function Asked(rows: Rows, from: nat, to: nat): seq<Text>
    requires from <= to <= |rows|
  {
    if from == to then []
    else if IsSealRow(rows[to - 1]) then Asked(rows, from, to - 1)
    else Asked(rows, from, to - 1) + [rows[to - 1]]
  }

  predicate IsGuarded(rules: Rules, search: Search, line: nat, behindFirst: bool)
    requires line < |search.rows|
  {
    IsProtectedSemanticRow(rules, search.rows[line], MayContinue(search.detail) && behindFirst)
  }

  /** A row of the body: no seal, not guarded, and accepted after those before it. */
  predicate IsDetailRow(rules: Rules, search: Search, line: nat)
    requires search.Valid() && search.startLine < line < |search.rows|
  {
    var first := search.startLine + 1;
    && !IsSealRow(search.rows[line])
    && !IsGuarded(rules, search, line, line > first)
    && Accepts(rules, search.detail, search.rows[search.startLine], Asked(search.rows, first, line),
        search.rows[line], line - first)
  }

  predicate AllSeals(rows: Rows, from: nat, to: nat)
    requires to <= |rows|
  {
    forall k :: from <= k < to ==> IsSealRow(rows[k])
  }

  /** The run of seals at `line` ends in `next`, a row that goes on with the same body. */
  predicate ContinuesAt(rules: Rules, search: Search, line: nat, next: nat)
    requires search.Valid() && search.startLine < line
  {
    && MayContinue(search.detail)
    && line < next < search.MaximumEnd()
    && AllSeals(search.rows, line, next) && !IsSealRow(search.rows[next])
    && !IsGuarded(rules, search, next, line > search.startLine + 1)
    && rules.continuationDetail(search.rows[next])
  }

  /** A run of seals starts here, and the body does not go on behind it. */
  ghost predicate EndsBody(rules: Rules, search: Search, line: nat)
    requires search.Valid()
  {
    && search.startLine < line < search.MaximumEnd()
    && IsSealRow(search.rows[line])
    && (line == search.startLine + 1 || !IsSealRow(search.rows[line - 1]))
    && !exists next: nat :: ContinuesAt(rules, search, line, next)
  }

  /** The body ends at the first such place, with nothing but details and bridged blanks in it,
      within the limits. */
  ghost predicate IsSealedBody(rules: Rules, search: Search, end: nat)
    requires search.Valid()
  {
    && EndsBody(rules, search, end)
    && (forall line :: search.startLine < line < end ==>
          !EndsBody(rules, search, line) && (IsSealRow(search.rows[line]) || IsDetailRow(rules, search, line)))
    && Chars(search.rows, search.startLine, end) <= search.maxBlockChars
  }

  /** How far a scan has come: everything before `line` is body. */
  ghost predicate ScannedTo(rules: Rules, search: Search, line: nat)
    requires search.Valid()
  {
    && search.startLine < line <= |search.rows| && line <= search.startLine + search.maxBlockLines + 1
    && Chars(search.rows, search.startLine, line) <= search.maxBlockChars
    && (forall k :: search.startLine < k < line ==>
          !EndsBody(rules, search, k) && (IsSealRow(search.rows[k]) || IsDetailRow(rules, search, k)))
    && (line == search.startLine + 1 || !IsSealRow(search.rows[line - 1])
        || (line < |search.rows| && !IsSealRow(search.rows[line])))
  }

  /** Once a row is neither seal nor detail, or the characters run over, there is no body. */
  lemma NoBodyPast(rules: Rules, search: Search, line: nat, end: nat)
    requires search.Valid() && ScannedTo(rules, search, line) && line < search.MaximumEnd()
             && !IsSealRow(search.rows[line])
    requires !IsDetailRow(rules, search, line) || Chars(search.rows, search.startLine, line + 1) > search.maxBlockChars
    ensures !IsSealedBody(rules, search, end)
  {
    if line < end <= |search.rows| {
      MoreRowsMoreChars(search.rows, search.startLine, line + 1, end);
    }
  }

  lemma NoBodyAnywherePast(rules: Rules, search: Search, line: nat)
    requires search.Valid() && ScannedTo(rules, search, line) && line < search.MaximumEnd()
             && !IsSealRow(search.rows[line])
    requires !IsDetailRow(rules, search, line) || Chars(search.rows, search.startLine, line + 1) > search.maxBlockChars
    ensures forall end: nat :: !IsSealedBody(rules, search, end)
  {
    forall end: nat ensures !IsSealedBody(rules, search, end) {
      NoBodyPast(rules, search, line, end);
    }
  }

  /** The same when it is the bridged blanks that run over. */
  lemma NoBodyPastBlanks(rules: Rules, search: Search, line: nat, next: nat, b: nat, end: nat)
    requires search.Valid() && ScannedTo(rules, search, line) && ContinuesAt(rules, search, line, next)
             && IsSealRow(search.rows[line])
    requires line <= b < next && Chars(search.rows, search.startLine, b + 1) > search.maxBlockChars
    ensures !IsSealedBody(rules, search, end)
  {
    hide IsSealRow, IsDetailRow, IsGuarded;
    if b < end <= |search.rows| {
      MoreRowsMoreChars(search.rows, search.startLine, b + 1, end);
    } else if line < end <= b {
      SealsInside(rules, search, line, next, end);
    }
  }

  lemma SealsInside(rules: Rules, search: Search, line: nat, next: nat, k: nat)
    requires search.Valid() && search.startLine < line < k < next <= |search.rows| && AllSeals(search.rows, line, next)
    ensures !EndsBody(rules, search, k) && IsSealRow(search.rows[k])
  {
    assert IsSealRow(search.rows[k - 1]);
  }

  lemma DetailTaken(rules: Rules, search: Search, line: nat)
    requires search.Valid() && ScannedTo(rules, search, line) && line < search.MaximumEnd()
    requires IsDetailRow(rules, search, line) && Chars(search.rows, search.startLine, line + 1) <= search.maxBlockChars
    ensures ScannedTo(rules, search, line + 1)
  {
  }

  lemma BlanksBridged(rules: Rules, search: Search, line: nat, next: nat)
    requires search.Valid() && ScannedTo(rules, search, line) && ContinuesAt(rules, search, line, next)
    requires IsSealRow(search.rows[line]) && Chars(search.rows, search.startLine, next) <= search.maxBlockChars
    ensures ScannedTo(rules, search, next)
  {
    assert search.startLine < line < next < search.MaximumEnd() && !IsSealRow(search.rows[next])
        && AllSeals(search.rows, line, next);
    BridgeIsNoEnd(rules, search, line, next);
    hide IsSealRow, EndsBody, IsDetailRow, ContinuesAt;
    forall k: nat | line < k < next ensures !EndsBody(rules, search, k) && IsSealRow(search.rows[k]) {
      SealsInside(rules, search, line, next, k);
    }
  }

  lemma BridgeIsNoEnd(rules: Rules, search: Search, line: nat, next: nat)
    requires search.Valid() && search.startLine < line && ContinuesAt(rules, search, line, next)
    ensures !EndsBody(rules, search, line)
  {
  }

  lemma SealEndsBody(rules: Rules, search: Search, line: nat)
    requires search.Valid() && ScannedTo(rules, search, line) && line < search.MaximumEnd()
             && IsSealRow(search.rows[line])
    requires forall next: nat :: !ContinuesAt(rules, search, line, next)
    ensures IsSealedBody(rules, search, line)
  {
  }

  lemma NoSealInReach(rules: Rules, search: Search, line: nat)
    requires search.Valid() && ScannedTo(rules, search, line) && line >= search.MaximumEnd()
    ensures forall end: nat :: !IsSealedBody(rules, search, end)
  {
  }

  /** Where the run of seals at `line` leads on, if it does. */
  method FindContinuation(rules: Rules, search: Search, line: nat) returns (found: Option<nat>)
    requires search.Valid() && search.startLine < line < search.MaximumEnd() && IsSealRow(search.rows[line])
    ensures found.Some? ==> ContinuesAt(rules, search, line, found.value)
    ensures found.None? ==> forall next: nat :: !ContinuesAt(rules, search, line, next)
  {
    if !MayContinue(search.detail) {
      return None;
    }
    var nextLine := line + 1;
    while nextLine < search.MaximumEnd() && IsSealRow(search.rows[nextLine])
      invariant line < nextLine <= search.MaximumEnd()
      invariant AllSeals(search.rows, line, nextLine)
    {
      nextLine := nextLine + 1;
    }
    OneContinuation(rules, search, line, nextLine);
    if nextLine < search.MaximumEnd() {
      var nextIsProtected := IsGuarded(rules, search, nextLine, line > search.startLine + 1);
      if !nextIsProtected && rules.continuationDetail(search.rows[nextLine]) {
        return Some(nextLine);
      }
    }
    return None;
  }

  lemma OneContinuation(rules: Rules, search: Search, line: nat, nextLine: nat)
    requires search.Valid() && search.startLine < line < nextLine <= search.MaximumEnd()
    requires AllSeals(search.rows, line, nextLine)
    requires nextLine == search.MaximumEnd() || !IsSealRow(search.rows[nextLine])
    ensures forall next: nat :: ContinuesAt(rules, search, line, next) ==> next == nextLine
  {
    hide IsSealRow, IsGuarded;
  }

  /** The end of the sealed body behind a header, exactly when there is one. */
  method SealedBody(rules: Rules, search: Search) returns (found: Option<nat>)
    requires search.Valid()
    ensures found.Some? ==> IsSealedBody(rules, search, found.value)
    ensures found.None? ==> forall end: nat :: !IsSealedBody(rules, search, end)
  {
    hide IsSealedBody, ContinuesAt, AllSeals, EndsBody, IsDetailRow, IsGuarded, Accepts, IsSealRow, Chars;
    var rows := search.rows;
    var candidateChars := |rows[search.startLine]|;
    if candidateChars > search.maxBlockChars {
      HeaderTooLong(rules, search);
      return None;
    }
    var line := search.startLine + 1;
    ScanStarts(rules, search);
    while line < search.MaximumEnd()
      invariant ScannedTo(rules, search, line)
      invariant candidateChars == Chars(rows, search.startLine, line)
      decreases |rows| - line
    {
      hide ScannedTo;
      if IsSealRow(rows[line]) {
        var continuation := FindContinuation(rules, search, line);
        if continuation.None? {
          SealEndsBody(rules, search, line);
          return Some(line);
        }
        var nextLine := continuation.value;
        var fits;
        candidateChars, fits := BridgeBlanks(rules, search, line, nextLine, candidateChars);
        if !fits {
          return None;
        }
        line := nextLine;
        continue;
      }
      var accepted;
      candidateChars, accepted := TakeDetail(rules, search, line, candidateChars);
      if !accepted {
        return None;
      }
      line := line + 1;
    }
    NoSealInReach(rules, search, line);
    return None;
  }

  /** Take one row into the body, if it belongs there. */
  method TakeDetail(rules: Rules, search: Search, line: nat, charsBefore: nat) returns (chars: nat, accepted: bool)
    requires search.Valid() && ScannedTo(rules, search, line) && line < search.MaximumEnd()
             && !IsSealRow(search.rows[line])
    requires search.startLine < line && charsBefore == Chars(search.rows, search.startLine, line)
    ensures chars == charsBefore + |search.rows[line]|
    ensures accepted ==> ScannedTo(rules, search, line + 1) && chars == Chars(search.rows, search.startLine, line + 1)
    ensures !accepted ==> forall end: nat :: !IsSealedBody(rules, search, end)
  {
    hide ScannedTo, IsSealRow, IsSealedBody, IsDetailRow;
    chars := charsBefore + |search.rows[line]|;
    accepted := RowIsDetail(rules, search, line);
    if chars > search.maxBlockChars || !accepted {
      NoBodyAnywherePast(rules, search, line);
      return chars, false;
    }
    DetailTaken(rules, search, line);
  }

  /** Take the blanks between two parts of a body into it. */
  method BridgeBlanks(rules: Rules, search: Search, line: nat, nextLine: nat, charsBefore: nat)
    returns (chars: nat, fits: bool)
    requires search.Valid() && ScannedTo(rules, search, line) && ContinuesAt(rules, search, line, nextLine)
             && IsSealRow(search.rows[line])
    requires charsBefore == Chars(search.rows, search.startLine, line)
    ensures fits ==> ScannedTo(rules, search, nextLine) && chars == Chars(search.rows, search.startLine, nextLine)
    ensures !fits ==> forall end: nat :: !IsSealedBody(rules, search, end)
  {
    chars := charsBefore;
    assert line < nextLine < search.MaximumEnd() && search.startLine < line;
    assert chars <= search.maxBlockChars;
    hide ScannedTo, ContinuesAt, IsSealRow, IsSealedBody;
    for b := line to nextLine
      invariant chars == Chars(search.rows, search.startLine, b) <= search.maxBlockChars
    {
      chars := chars + |search.rows[b]|;
      if chars > search.maxBlockChars {
        forall end: nat ensures !IsSealedBody(rules, search, end) {
          NoBodyPastBlanks(rules, search, line, nextLine, b, end);
        }
        return chars, false;
      }
    }
    BlanksBridged(rules, search, line, nextLine);
    return chars, true;
  }

  method RowIsDetail(rules: Rules, search: Search, line: nat) returns (accepted: bool)
    requires search.Valid() && search.startLine < line < |search.rows| && !IsSealRow(search.rows[line])
    ensures accepted <==> IsDetailRow(rules, search, line)
  {
    var first := search.startLine + 1;
    return !IsGuarded(rules, search, line, line > first)
           && Accepts(rules, search.detail, search.rows[search.startLine], Asked(search.rows, first, line),
               search.rows[line], line - first);
  }

  lemma HeaderTooLong(rules: Rules, search: Search)
    requires search.Valid() && |search.rows[search.startLine]| > search.maxBlockChars
    ensures forall end: nat :: !IsSealedBody(rules, search, end)
  {
    forall end: nat ensures !IsSealedBody(rules, search, end) {
      if search.startLine < end <= |search.rows| {
        assert Chars(search.rows, search.startLine, search.startLine + 1) == |search.rows[search.startLine]|;
        MoreRowsMoreChars(search.rows, search.startLine, search.startLine + 1, end);
      }
    }
  }

  lemma ScanStarts(rules: Rules, search: Search)
    requires search.Valid() && |search.rows[search.startLine]| <= search.maxBlockChars
    ensures ScannedTo(rules, search, search.startLine + 1)
    ensures Chars(search.rows, search.startLine, search.startLine + 1) == |search.rows[search.startLine]|
  {
  }

  // ---- Waiting pairs ------------------------------------------------------------------------------

  /** `Waiting for agents`, a seal, `Finished waiting`, and painted results up to the next seal. */
  ghost predicate IsWaitingPair(rules: Rules, search: Search, end: nat)
    requires search.Valid()
  {
    var rows, start := search.rows, search.startLine;
    && start + 2 < |rows| && IsSealRow(rows[start + 1]) && rules.finishedWaiting(rows[start + 2])
    && start + 3 <= end < search.MaximumEnd() && IsSealRow(rows[end])
    && (forall line :: start + 3 <= line < end ==> IsResultRow(rules, rows[line]))
    && |rows[start]| + |rows[start + 2]| + Chars(rows, start + 3, end) <= search.maxBlockChars
  }

  predicate IsResultRow(rules: Rules, raw: Text) {
    && !IsSealRow(raw) && rules.complete(raw) && !IsProtectedSemanticRow(rules, raw, false)
    && (rules.treeReset(raw) || rules.dimRow(raw))
  }

  method WaitingPair(rules: Rules, search: Search) returns (found: Option<nat>)
    requires search.Valid()
    ensures found.Some? ==> IsWaitingPair(rules, search, found.value)
    ensures found.None? ==> forall end: nat :: !IsWaitingPair(rules, search, end)
  {
    var rows, start := search.rows, search.startLine;
    if start + 1 >= |rows| || !IsSealRow(rows[start + 1]) || start + 2 >= |rows|
        || !rules.finishedWaiting(rows[start + 2]) {
      return None;
    }
    var candidateChars := |rows[start]| + |rows[start + 2]|;
    if candidateChars > search.maxBlockChars {
      return None;
    }
    var line := start + 3;
    while line < search.MaximumEnd()
      invariant start + 3 <= line <= |rows|
      invariant candidateChars == |rows[start]| + |rows[start + 2]| +
                Chars(rows, start + 3, line) <= search.maxBlockChars
      invariant forall k :: start + 3 <= k < line ==> IsResultRow(rules, rows[k])
      decreases |rows| - line
    {
      hide IsSealRow;
      var raw := rows[line];
      if IsSealRow(raw) {
        return Some(line);
      }
      candidateChars := candidateChars + |raw|;
      if candidateChars > search.maxBlockChars || !rules.complete(raw) || IsProtectedSemanticRow(rules, raw, false)
         || !(rules.treeReset(raw) || rules.dimRow(raw)) {
        forall end: nat ensures !IsWaitingPair(rules, search, end) {
          NoPairPast(rules, search, line, end);
        }
        return None;
      }
      line := line + 1;
    }
    return None;
  }

  lemma NoPairPast(rules: Rules, search: Search, line: nat, end: nat)
    requires search.Valid() && search.startLine + 3 <= line < |search.rows| && !IsSealRow(search.rows[line])
    requires forall k :: search.startLine + 3 <= k < line ==> IsResultRow(rules, search.rows[k])
    requires var rows, start := search.rows, search.startLine;
             !IsResultRow(rules, rows[line]) || |rows[start]| + |rows[start + 2]| +
                 Chars(rows, start + 3, line + 1) > search.maxBlockChars
    ensures !IsWaitingPair(rules, search, end)
  {
    if line < end <= |search.rows| {
      MoreRowsMoreChars(search.rows, search.startLine + 3, line + 1, end);
    }
  }

  // ---- Blocks -------------------------------------------------------------------------------------

  /** What is visible of the parts, one after the other. */
  function VisibleOf(parts: seq<Text>): Text {
    if parts == [] then []
    else VisibleOf(parts[..|parts| - 1]) + VisibleText(parts[|parts| - 1], Stripper)
  }

  function IsInk(): (wanted: Unit -> bool)
    ensures forall u :: wanted(u) <==> !IsTrimmed(u)
  {
    (u: Unit) => !IsTrimmed(u)
  }

  /** Content regardless of paint, and of where rows were wrapped: what is visible, without blanks. */
  function Normalized(parts: seq<Text>): Text {
    Keep(VisibleOf(parts), IsInk())
  }

  function Fingerprint(rules: Rules, kind: BlockKind, outcome: Outcome, parts: seq<Text>): Text {
    Ascii("tool-v1-") + rules.digest(kind, outcome, Normalized(parts))
  }

  /** A block with its proof: the rows it hides, the rows it leaves, the seal behind them. */
  function CompletedBlock(rules: Rules, kind: BlockKind, outcome: Outcome, start: nat, end: nat, proofEnd: nat,
                          collapse: seq<LineRange>, protect: seq<LineRange>, caption: Text, parts: seq<Text>): Block
  {
    var fingerprint := Fingerprint(rules, kind, outcome, parts);
    Block(fingerprint, Codex, kind, outcome, LineRange(start, end), LineRange(start, proofEnd), collapse, protect,
        fingerprint, caption)
  }

  function WholeBlock(rules: Rules, kind: BlockKind, outcome: Outcome, start: nat, end: nat, caption: string,
      parts: seq<Text>): Block {
    CompletedBlock(rules, kind, outcome, start, end, end + 1, [LineRange(start, end)], [], Ascii(caption), parts)
  }

  /** The two guards before any header is looked at. */
  predicate MayHoldHeader(rules: Rules, raw: Text, maxBlockChars: nat) {
    |raw| <= MAX_ROW_CHARS && |raw| <= maxBlockChars && rules.complete(raw)
  }

  /** A group header counts in agreement with its plural. */
  predicate IsGroupCount(count: Text, plural: Text) {
    if count == Ascii("1") then plural == [] else plural == Ascii("s")
  }

  predicate OneLineSealed(rows: Rows, start: nat) {
    start + 1 < |rows| && IsSealRow(rows[start + 1])
  }

  /** The rows from `start` to `end` are what the header at `start` asks for. */
  ghost predicate HasEvidence(rules: Rules, rows: Rows, start: nat, maxBlockLines: nat, maxBlockChars: nat, end: nat) {
    && start < end <= |rows| && MayHoldHeader(rules, rows[start], maxBlockChars)
    && match rules.header(rows[start])
       case RunGroupHeader(count, plural) => IsGroupCount(count, plural) && end == start + 1
       case RanHeader(_) =>
         && end > start + 1 && rules.sawDimDetail(rows[start], rows[start + 1..end])
         && IsSealedBody(rules, Search(rows, start, maxBlockLines, maxBlockChars, RanDetail), end)
       case WaitedHeader(_) => IsSealedBody(rules, Search(rows, start, maxBlockLines, maxBlockChars, CommandDetail),
           end)
       case InteractionHeader(_) => IsSealedBody(rules,
           Search(rows, start, maxBlockLines, maxBlockChars, CommandDetail), end)
       case WaitingForAgents => IsWaitingPair(rules, Search(rows, start, maxBlockLines, maxBlockChars, WaitResult), end)
       case FinishedWaiting => IsSealedBody(rules, Search(rows, start, maxBlockLines, maxBlockChars, WaitResult), end)
       case ViewedImage =>
         end > start + 1 && IsSealedBody(rules, Search(rows, start, maxBlockLines, maxBlockChars, ImageDetail), end)
       case AgentInteractionHeader(_) => end == start + 1 && OneLineSealed(rows, start)
       case StartedHeader(_) => end == start + 1 && OneLineSealed(rows, start)
       case CompletedHeader(_) => end == start + 1 && OneLineSealed(rows, start)
       case EditedHeader(_, _, _) =>
         end > start + 1 && IsSealedBody(rules, Search(rows, start, maxBlockLines, maxBlockChars, EditDetail), end)
       case NoHeader => false
  }

  function Visible(rules: Rules, rows: Rows, from: nat, to: nat): seq<Text>
    requires to <= |rows|
  {
    if to <= from then [] else Visible(rules, rows, from, to - 1) + [rules.visible(rows[to - 1])]
  }

  /** The block over those rows. */
  function Announced(rules: Rules, rows: Rows, start: nat, end: nat): Block
    requires start < end <= |rows|
  {
    var body := rows[start + 1..end];
    match rules.header(rows[start])
    case RunGroupHeader(count, plural) =>
      CompletedBlock(rules, RunGroup, Succeeded, start, end, end, [LineRange(start, end)], [],
                     Ascii("Codex commands"), [Ascii("Ran ") + count + Ascii(" command") + plural])
    case RanHeader(fragment) => WholeBlock(rules, Run, Succeeded, start, end, "Codex command", [fragment] + body)
    case WaitedHeader(tail) =>
      WholeBlock(rules, BackgroundWait, Completed, start, end, "Codex background wait", [tail] + body)
    case InteractionHeader(tail) =>
      WholeBlock(rules, BackgroundInteraction, Completed, start, end, "Codex background interaction", [tail] + body)
    case WaitingForAgents =>
      WholeBlock(rules, AgentWait, Completed, start, end, "Codex agent wait",
                 [Ascii("Waiting for agents"), Ascii("Finished waiting")] + Visible(rules, rows, start + 3, end))
    case FinishedWaiting =>
      WholeBlock(rules, AgentWait, Completed, start, end, "Codex agent wait", [Ascii("Finished waiting")] + body)
    case ViewedImage => WholeBlock(rules, ViewImage, Completed, start, end, "Codex image", body)
    case AgentInteractionHeader(agent) =>
      WholeBlock(rules, AgentInteraction, Completed, start, end, "Codex agent interaction", [agent])
    case StartedHeader(agent) => WholeBlock(rules, AgentStart, Completed, start, end, "Codex agent started", [agent])
    case CompletedHeader(agent) => WholeBlock(rules, AgentComplete, Completed, start, end, "Codex agent completed",
        [agent])
    case EditedHeader(path, added, removed) =>
      CompletedBlock(rules, Edit, Completed, start, end, end + 1, [LineRange(start + 1, end)],
          [LineRange(start, start + 1)],
                     Ascii("Codex edit details"), [path, added, removed] + body)
    case NoHeader => WholeBlock(rules, Run, Completed, start, end, "none", [])
  }

  /** The evidence for a block: its rows are what its header asks for, and it is the block over
      them. */
  ghost predicate IsEvident(rules: Rules, rows: Rows, maxBlockLines: nat, maxBlockChars: nat, block: Block) {
    var start, end := block.sourceRange.startLine, block.sourceRange.endLine;
    && 0 <= start < end
    && HasEvidence(rules, rows, start, maxBlockLines, maxBlockChars, end)
    && block == Announced(rules, rows, start, end)
  }

  /** Everything but a run group is proved by the seal row behind it. */
  ghost predicate IsSealedOff(rows: Rows, block: Block) {
    var end := block.sourceRange.endLine;
    && block.proofRange.startLine == block.sourceRange.startLine
    && (block.kind == RunGroup ==> block.proofRange.endLine == end)
    && (block.kind != RunGroup ==> block.proofRange.endLine == end + 1 && 0 <= end < |rows| && IsSealRow(rows[end]))
  }

  lemma CaptionIsNotBlank(caption: string)
    requires |caption| > 0 && 'A' <= caption[0] <= 'z'
    ensures !TrimsToNothing(Ascii(caption))
  {
    assert !IsTrimmed(Ascii(caption)[0]);
  }

  lemma FingerprintIsNotBlank(rules: Rules, kind: BlockKind, outcome: Outcome, parts: seq<Text>)
    ensures !TrimsToNothing(Fingerprint(rules, kind, outcome, parts))
  {
    assert Fingerprint(rules, kind, outcome, parts)[0] == Ascii("tool-v1-")[0];
    assert !IsTrimmed(Ascii("tool-v1-")[0]);
  }

  /** Rows are a JavaScript array: its length is a 32-bit number. */
  const MAX_ROWS: nat := 0x1_0000_0000

  /** A block over whole rows, all hidden or all but the header, has a complete proof. */
  lemma CompletedIsWellProved(rules: Rules, block: Block, kind: BlockKind, outcome: Outcome, start: nat, end: nat,
      proofEnd: nat,
                              firstHidden: nat, caption: string, parts: seq<Text>, lineCount: nat)
    requires start < end <= proofEnd <= lineCount < MAX_ROWS && start <= firstHidden <= start + 1 && firstHidden < end
    requires block == CompletedBlock(rules, kind, outcome, start, end, proofEnd, [LineRange(firstHidden, end)],
                                     if firstHidden == start then [] else [LineRange(start, firstHidden)],
                                         Ascii(caption), parts)
    requires |caption| > 0 && 'A' <= caption[0] <= 'z'
    ensures WellProved(block, lineCount) && |block.fingerprint| > 0
  {
    CaptionIsNotBlank(caption);
    FingerprintIsNotBlank(rules, kind, outcome, parts);
    forall row | Holds(block.sourceRange, row)
      ensures Covered(block.collapseRanges, row) <==> !Covered(block.protectedRanges, row)
    {
      assert Holds(block.collapseRanges[0], row)
          || (|block.protectedRanges| == 1 && Holds(block.protectedRanges[0], row));
    }
  }

  /** What `ParseAt` owes for a block it returns. */
  ghost predicate IsParsed(rules: Rules, rows: Rows, start: nat, maxBlockLines: nat, maxBlockChars: nat, block: Block) {
    && block.sourceRange.startLine == start
    && IsEvident(rules, rows, maxBlockLines, maxBlockChars, block)
    && IsSealedOff(rows, block)
    && WellProved(block, |rows|)
    && block.sourceRange.endLine - start <= maxBlockLines
    && |block.fingerprint| > 0 && block.id == block.fingerprint
  }

  /** The end of the sealed body, if the body is there and is not empty when it must not be. */
  method ParseSealed(rules: Rules, rows: Rows, start: nat, maxBlockLines: nat, maxBlockChars: nat, detail: Detail,
      mayBeEmpty: bool)
    returns (end: Option<nat>)
    requires start < |rows| < MAX_ROWS
    ensures end.Some? ==> start < end.value < |rows| && (mayBeEmpty || end.value > start + 1)
                          && IsSealedBody(rules, Search(rows, start, maxBlockLines, maxBlockChars, detail), end.value)
    ensures end.None? ==> forall e: nat :: mayBeEmpty || e > start + 1 ==>
              !IsSealedBody(rules, Search(rows, start, maxBlockLines, maxBlockChars, detail), e)
  {
    hide Accepts, IsSealRow, IsDetailRow, ContinuesAt;
    var search := Search(rows, start, maxBlockLines, maxBlockChars, detail);
    end := SealedBody(rules, search);
    if end.Some? && !mayBeEmpty && end.value == start + 1 {
      forall e: nat | e > start + 1 ensures !IsSealedBody(rules, search, e) {
        assert EndsBody(rules, search, start + 1);
      }
      end := None;
    }
  }

  /** Headers whose block is a sealed body. */
  method ParseBody(rules: Rules, rows: Rows, start: nat, maxBlockLines: nat, maxBlockChars: nat)
    returns (end: Option<nat>)
    requires start < |rows| < MAX_ROWS && MayHoldHeader(rules, rows[start], maxBlockChars)
    requires var header := rules.header(rows[start]);
             header.RanHeader? || header.WaitedHeader? || header.InteractionHeader? || header.FinishedWaiting?
                 || header.ViewedImage?
             || header.EditedHeader?
    ensures end.Some? ==> HasEvidence(rules, rows, start, maxBlockLines, maxBlockChars, end.value)
    ensures end.None? ==> forall e: nat :: !HasEvidence(rules, rows, start, maxBlockLines, maxBlockChars, e)
  {
    hide IsSealedBody, IsSealRow, IsWaitingPair;
    var header := rules.header(rows[start]);
    var detail, mayBeEmpty;
    match header {
      case RanHeader(_) => detail, mayBeEmpty := RanDetail, false;
      case WaitedHeader(_) => detail, mayBeEmpty := CommandDetail, true;
      case InteractionHeader(_) => detail, mayBeEmpty := CommandDetail, true;
      case FinishedWaiting => detail, mayBeEmpty := WaitResult, true;
      case ViewedImage => detail, mayBeEmpty := ImageDetail, false;
      case EditedHeader(_, _, _) => detail, mayBeEmpty := EditDetail, false;
    }
    end := ParseSealed(rules, rows, start, maxBlockLines, maxBlockChars, detail, mayBeEmpty);
    if end.Some? && header.RanHeader? && !rules.sawDimDetail(rows[start], rows[start + 1..end.value]) {
      forall e: nat ensures !HasEvidence(rules, rows, start, maxBlockLines, maxBlockChars, e) {
        OneSealedBody(rules, Search(rows, start, maxBlockLines, maxBlockChars, detail), end.value, e);
      }
      end := None;
    }
  }

  /** There is one end of a body at most. */
  lemma OneSealedBody(rules: Rules, search: Search, a: nat, b: nat)
    requires search.Valid() && IsSealedBody(rules, search, a)
    ensures IsSealedBody(rules, search, b) ==> a == b
  {
    hide EndsBody, IsDetailRow, IsSealRow;
    if IsSealedBody(rules, search, b) {
      EndIsBehindHeader(rules, search, a);
      EndIsBehindHeader(rules, search, b);
    }
  }

  lemma EndIsBehindHeader(rules: Rules, search: Search, end: nat)
    requires search.Valid() && EndsBody(rules, search, end)
    ensures search.startLine < end < |search.rows| && end - search.startLine <= search.maxBlockLines
            && IsSealRow(search.rows[end])
  {
  }

  lemma PairIsWithin(rules: Rules, search: Search, end: nat)
    requires search.Valid() && IsWaitingPair(rules, search, end)
    ensures search.startLine + 3 <= end < |search.rows| && end - search.startLine <= search.maxBlockLines
            && IsSealRow(search.rows[end])
  {
  }

  /** One header has one block at most. */
  lemma OneEvidence(rules: Rules, rows: Rows, start: nat, maxBlockLines: nat, maxBlockChars: nat, a: nat, b: nat)
    requires HasEvidence(rules, rows, start, maxBlockLines, maxBlockChars, a)
    requires HasEvidence(rules, rows, start, maxBlockLines, maxBlockChars, b)
    ensures a == b
  {
    hide IsSealedBody, IsSealRow;
    var search := Search(rows, start, maxBlockLines, maxBlockChars, RanDetail);
    match rules.header(rows[start]) {
      case RanHeader(_) => OneSealedBody(rules, search, a, b);
      case WaitedHeader(_) => OneSealedBody(rules, search.(detail := CommandDetail), a, b);
      case InteractionHeader(_) => OneSealedBody(rules, search.(detail := CommandDetail), a, b);
      case FinishedWaiting => OneSealedBody(rules, search.(detail := WaitResult), a, b);
      case ViewedImage => OneSealedBody(rules, search.(detail := ImageDetail), a, b);
      case EditedHeader(_, _, _) => OneSealedBody(rules, search.(detail := EditDetail), a, b);
      case _ =>
    }
  }

  /** Evidence keeps its block within the limit and sealed off. */
  lemma EvidenceIsSealed(rules: Rules, rows: Rows, start: nat, maxBlockLines: nat, maxBlockChars: nat, end: nat)
    requires HasEvidence(rules, rows, start, maxBlockLines, maxBlockChars, end) && maxBlockLines > 0
    ensures start < end <= |rows| && end - start <= maxBlockLines
    ensures rules.header(rows[start]).EditedHeader? ==> end > start + 1
    ensures !rules.header(rows[start]).RunGroupHeader? ==> end < |rows| && IsSealRow(rows[end])
    ensures !rules.header(rows[start]).NoHeader?
  {
    hide IsSealRow, EndsBody, IsWaitingPair;
    var search := Search(rows, start, maxBlockLines, maxBlockChars, RanDetail);
    match rules.header(rows[start]) {
      case RanHeader(_) => EndIsBehindHeader(rules, search, end);
      case WaitedHeader(_) => EndIsBehindHeader(rules, search.(detail := CommandDetail), end);
      case InteractionHeader(_) => EndIsBehindHeader(rules, search.(detail := CommandDetail), end);
      case WaitingForAgents => PairIsWithin(rules, search.(detail := WaitResult), end);
      case FinishedWaiting => EndIsBehindHeader(rules, search.(detail := WaitResult), end);
      case ViewedImage => EndIsBehindHeader(rules, search.(detail := ImageDetail), end);
      case EditedHeader(_, _, _) => EndIsBehindHeader(rules, search.(detail := EditDetail), end);
      case _ =>
    }
  }

  lemma WholeIsWellProved(rules: Rules, kind: BlockKind, outcome: Outcome, start: nat, end: nat, caption: string,
      parts: seq<Text>, lineCount: nat)
    requires start < end < lineCount < MAX_ROWS && |caption| > 0 && 'A' <= caption[0] <= 'z'
    ensures var block := WholeBlock(rules, kind, outcome, start, end, caption, parts);
            WellProved(block, lineCount) && |block.fingerprint| > 0
  {
    CompletedIsWellProved(rules, WholeBlock(rules, kind, outcome, start, end, caption, parts), kind, outcome, start,
        end, end + 1, start,
                          caption, parts, lineCount);
  }

  /** Headers with a body: the block over it is complete in itself. */
  lemma BodyIsWellProved(rules: Rules, rows: Rows, start: nat, end: nat)
    requires start < end < |rows| < MAX_ROWS
    requires var header := rules.header(rows[start]);
             header.RanHeader? || header.WaitedHeader? || header.InteractionHeader? || header.WaitingForAgents?
                 || header.FinishedWaiting? || header.ViewedImage?
    ensures WellProved(Announced(rules, rows, start, end), |rows|)
            && |Announced(rules, rows, start, end).fingerprint| > 0
  {
    hide WellProved, Fingerprint, WholeBlock, Visible;
    var body, n := rows[start + 1..end], |rows|;
    match rules.header(rows[start]) {
      case RanHeader(fragment) => WholeIsWellProved(rules, Run, Succeeded, start, end, "Codex command",
          [fragment] + body, n);
      case WaitedHeader(tail) => WholeIsWellProved(rules, BackgroundWait, Completed, start, end,
          "Codex background wait", [tail] + body, n);
      case InteractionHeader(tail) =>
        WholeIsWellProved(rules, BackgroundInteraction, Completed, start, end, "Codex background interaction",
            [tail] + body, n);
      case WaitingForAgents =>
        var parts := [Ascii("Waiting for agents"), Ascii("Finished waiting")] + Visible(rules, rows, start + 3, end);
        WholeIsWellProved(rules, AgentWait, Completed, start, end, "Codex agent wait", parts, n);
      case FinishedWaiting =>
        WholeIsWellProved(rules, AgentWait, Completed, start, end, "Codex agent wait",
            [Ascii("Finished waiting")] + body, n);
      case ViewedImage => WholeIsWellProved(rules, ViewImage, Completed, start, end, "Codex image", body, n);
    }
  }

  /** The block over its evidence is complete in itself. */
  lemma AnnouncedIsWellProved(rules: Rules, rows: Rows, start: nat, maxBlockLines: nat, maxBlockChars: nat, end: nat)
    requires HasEvidence(rules, rows, start, maxBlockLines, maxBlockChars, end) && maxBlockLines > 0
             && |rows| < MAX_ROWS
    ensures WellProved(Announced(rules, rows, start, end), |rows|)
            && |Announced(rules, rows, start, end).fingerprint| > 0
  {
    EvidenceIsSealed(rules, rows, start, maxBlockLines, maxBlockChars, end);
    hide HasEvidence, WellProved, IsSealRow, Announced;
    match rules.header(rows[start]) {
      case RunGroupHeader(_, _) => RunGroupIsWellProved(rules, rows, start, end);
      case AgentInteractionHeader(_) => LineIsWellProved(rules, rows, start, end);
      case StartedHeader(_) => LineIsWellProved(rules, rows, start, end);
      case CompletedHeader(_) => LineIsWellProved(rules, rows, start, end);
      case EditedHeader(_, _, _) => EditIsWellProved(rules, rows, start, end);
      case NoHeader =>
      case _ => BodyIsWellProved(rules, rows, start, end);
    }
  }

  lemma RunGroupIsWellProved(rules: Rules, rows: Rows, start: nat, end: nat)
    requires start < end <= |rows| < MAX_ROWS && rules.header(rows[start]).RunGroupHeader?
    ensures WellProved(Announced(rules, rows, start, end), |rows|)
            && |Announced(rules, rows, start, end).fingerprint| > 0
  {
    hide WellProved, Fingerprint;
    var header := rules.header(rows[start]);
    CompletedIsWellProved(rules, Announced(rules, rows, start, end), RunGroup, Succeeded, start, end, end, start,
        "Codex commands", [Ascii("Ran ") + header.count + Ascii(" command") + header.plural], |rows|);
  }

  lemma EditIsWellProved(rules: Rules, rows: Rows, start: nat, end: nat)
    requires start + 1 < end < |rows| < MAX_ROWS && rules.header(rows[start]).EditedHeader?
    ensures WellProved(Announced(rules, rows, start, end), |rows|)
            && |Announced(rules, rows, start, end).fingerprint| > 0
  {
    hide WellProved, Fingerprint;
    var header := rules.header(rows[start]);
    CompletedIsWellProved(rules, Announced(rules, rows, start, end), Edit, Completed, start, end, end + 1, start + 1,
        "Codex edit details", [header.path, header.added, header.removed] + rows[start + 1..end], |rows|);
  }

  lemma LineIsWellProved(rules: Rules, rows: Rows, start: nat, end: nat)
    requires start < end < |rows| < MAX_ROWS
    requires var header := rules.header(rows[start]);
             header.AgentInteractionHeader? || header.StartedHeader? || header.CompletedHeader?
    ensures WellProved(Announced(rules, rows, start, end), |rows|)
            && |Announced(rules, rows, start, end).fingerprint| > 0
  {
    hide WellProved, Fingerprint, WholeBlock;
    match rules.header(rows[start]) {
      case AgentInteractionHeader(agent) =>
        WholeIsWellProved(rules, AgentInteraction, Completed, start, end, "Codex agent interaction", [agent], |rows|);
      case StartedHeader(agent) =>
        WholeIsWellProved(rules, AgentStart, Completed, start, end, "Codex agent started", [agent], |rows|);
      case CompletedHeader(agent) =>
        WholeIsWellProved(rules, AgentComplete, Completed, start, end, "Codex agent completed", [agent], |rows|);
    }
  }

  lemma EvidentIsParsed(rules: Rules, rows: Rows, start: nat, maxBlockLines: nat, maxBlockChars: nat, end: nat)
    requires HasEvidence(rules, rows, start, maxBlockLines, maxBlockChars, end) && maxBlockLines > 0
             && |rows| < MAX_ROWS
    ensures IsParsed(rules, rows, start, maxBlockLines, maxBlockChars, Announced(rules, rows, start, end))
  {
    EvidenceIsSealed(rules, rows, start, maxBlockLines, maxBlockChars, end);
    AnnouncedIsWellProved(rules, rows, start, maxBlockLines, maxBlockChars, end);
    AnnouncedRanges(rules, rows, start, end);
    hide HasEvidence, WellProved, IsSealRow, Announced;
  }

  lemma AnnouncedRanges(rules: Rules, rows: Rows, start: nat, end: nat)
    requires start < end <= |rows| && !rules.header(rows[start]).NoHeader?
    ensures var header, block := rules.header(rows[start]), Announced(rules, rows, start, end);
            && block.sourceRange == LineRange(start, end) && block.id == block.fingerprint
            && (block.kind == RunGroup <==> header.RunGroupHeader?)
            && block.proofRange == LineRange(start, if header.RunGroupHeader? then end else end + 1)
  {
    hide Fingerprint;
  }

  /** Where the evidence for the header at `start` ends, if it is there. */
  method FindEvidence(rules: Rules, rows: Rows, start: nat, maxBlockLines: nat, maxBlockChars: nat)
    returns (end: Option<nat>)
    requires start < |rows| < MAX_ROWS
    ensures end.Some? ==> HasEvidence(rules, rows, start, maxBlockLines, maxBlockChars, end.value)
    ensures end.None? ==> forall e: nat :: !HasEvidence(rules, rows, start, maxBlockLines, maxBlockChars, e)
  {
    hide IsSealedBody, IsWaitingPair, IsSealRow;
    if !MayHoldHeader(rules, rows[start], maxBlockChars) {
      return None;
    }
    match rules.header(rows[start]) {
      case RunGroupHeader(count, plural) => end := if IsGroupCount(count, plural) then Some(start + 1) else None;
      case WaitingForAgents =>
        var search := Search(rows, start, maxBlockLines, maxBlockChars, WaitResult);
        end := WaitingPair(rules, search);
        if end.Some? {
          PairIsWithin(rules, search, end.value);
        }
      case AgentInteractionHeader(_) => end := if OneLineSealed(rows, start) then Some(start + 1) else None;
      case StartedHeader(_) => end := if OneLineSealed(rows, start) then Some(start + 1) else None;
      case CompletedHeader(_) => end := if OneLineSealed(rows, start) then Some(start + 1) else None;
      case NoHeader => end := None;
      case _ => end := ParseBody(rules, rows, start, maxBlockLines, maxBlockChars);
    }
  }

  /** The block that the header of a row announces, exactly when its evidence is there. */
  method ParseAt(rules: Rules, rows: Rows, start: nat, maxBlockLines: nat, maxBlockChars: nat)
    returns (parsed: Option<Block>)
    requires start < |rows| < MAX_ROWS && maxBlockLines > 0
    ensures parsed.Some? ==> IsParsed(rules, rows, start, maxBlockLines, maxBlockChars, parsed.value)
    ensures parsed.None? ==> forall end: nat :: !HasEvidence(rules, rows, start, maxBlockLines, maxBlockChars, end)
  {
    hide IsParsed, HasEvidence;
    var end := FindEvidence(rules, rows, start, maxBlockLines, maxBlockChars);
    if end.None? {
      return None;
    }
    EvidentIsParsed(rules, rows, start, maxBlockLines, maxBlockChars, end.value);
    EvidenceIsInRows(rules, rows, start, maxBlockLines, maxBlockChars, end.value);
    return Some(Announced(rules, rows, start, end.value));
  }

  lemma EvidenceIsInRows(rules: Rules, rows: Rows, start: nat, maxBlockLines: nat, maxBlockChars: nat, end: nat)
    requires HasEvidence(rules, rows, start, maxBlockLines, maxBlockChars, end)
    ensures start < end <= |rows|
  {
  }

  // ---- Detection ----------------------------------------------------------------------------------------

  /** Limits as given; `None` where none is given or it is not a finite number. */
  datatype Options = Options(normalScreen: bool, maxScanLines: Option<int>, maxBlockLines: Option<int>,
      maxBlockChars: Option<int>,
                             maxBlocks: Option<int>, identityLineOffset: Option<int>, leadingEdgeSealed: bool)

  function BoundedInteger(value: Option<int>, fallback: nat, maximum: nat): (bounded: nat)
    ensures bounded <= maximum || bounded == fallback
  {
    match value
    case None => fallback
    case Some(n) => if n < 0 then 0 else if n > maximum then maximum else n
  }

  datatype Detection = Detection(blocks: seq<Block>, scanRange: LineRange, enabled: bool)

  function RowId(fingerprint: Text, row: int): Text {
    fingerprint + Ascii(":row-") + SignedDecimal(row)
  }

  /** Something certain is in front of the row: the last block, the start of all, or a seal. */
  predicate LeadingBoundaryIsKnown(rows: Rows, line: nat, scanStart: nat, leadingEdgeSealed: bool,
      previousEnd: Option<nat>)
    requires line < |rows|
  {
    if previousEnd == Some(line) then true
    else if line == 0 then scanStart == 0 && leadingEdgeSealed
    else line > scanStart && IsSealRow(rows[line - 1])
  }

  function PreviousEnd(blocks: seq<Block>, k: nat): Option<nat>
    requires k <= |blocks|
  {
    if k == 0 || blocks[k - 1].sourceRange.endLine < 0 then None else Some(blocks[k - 1].sourceRange.endLine)
  }

  /** A block found: parsed at its row, and named by its content and its absolute row. */
  ghost predicate IsFound(rules: Rules, rows: Rows, maxBlockLines: nat, maxBlockChars: nat, offset: int, block: Block) {
    && block.sourceRange.startLine >= 0
    && IsParsed(rules, rows, block.sourceRange.startLine, maxBlockLines, maxBlockChars, block.(id := block.fingerprint))
    && block.id == RowId(block.fingerprint, offset + block.sourceRange.startLine)
  }

  predicate IsBehindBoundary(rows: Rows, scanStart: nat, leadingEdgeSealed: bool, block: Block,
      previousEnd: Option<nat>) {
    && scanStart <= block.sourceRange.startLine < |rows|
    && LeadingBoundaryIsKnown(rows, block.sourceRange.startLine, scanStart, leadingEdgeSealed, previousEnd)
  }

  /** Blocks found one after the other, each behind a known boundary. */
  ghost predicate AreFound(rules: Rules, rows: Rows, maxBlockLines: nat, maxBlockChars: nat, offset: int,
                           scanStart: nat, leadingEdgeSealed: bool, blocks: seq<Block>) {
    && (forall k :: 0 <= k < |blocks| ==> IsFound(rules, rows, maxBlockLines, maxBlockChars, offset, blocks[k]))
    && (forall a, b :: 0 <= a < b < |blocks| ==> blocks[a].sourceRange.endLine <= blocks[b].sourceRange.startLine)
    && (forall k: nat :: k < |blocks| ==> IsBehindBoundary(rows, scanStart, leadingEdgeSealed, blocks[k],
        PreviousEnd(blocks, k)))
  }

  /** What a row needs for its block to be found: a known boundary in front, evidence behind its
      header, and an absolute row that can be named. */
  ghost predicate MayBeFound(rules: Rules, rows: Rows, maxBlockLines: nat, maxBlockChars: nat, offset: int,
                             scanStart: nat, leadingEdgeSealed: bool, line: nat, previousEnd: Option<nat>)
    requires line < |rows|
  {
    && LeadingBoundaryIsKnown(rows, line, scanStart, leadingEdgeSealed, previousEnd)
    && IsSafeInteger(offset + line)
    && exists end: nat :: HasEvidence(rules, rows, line, maxBlockLines, maxBlockChars, end)
  }

  predicate IsOwned(blocks: seq<Block>, line: nat) {
    exists k :: 0 <= k < |blocks| && Holds(blocks[k].sourceRange, line)
  }

  /** Whether one of the blocks ends right in front of a row. */
  function EndAt(blocks: seq<Block>, line: nat): Option<nat> {
    if exists k :: 0 <= k < |blocks| && blocks[k].sourceRange.endLine == line then Some(line) else None
  }

  /** Every row before `to` that may be found is a row of a block that was. */
  ghost predicate NothingIsMissed(rules: Rules, rows: Rows, maxBlockLines: nat, maxBlockChars: nat, offset: int,
                                  scanStart: nat, leadingEdgeSealed: bool, blocks: seq<Block>, to: nat)
    requires to <= |rows|
  {
    forall line: nat :: scanStart <= line < to
      && MayBeFound(rules, rows, maxBlockLines, maxBlockChars, offset, scanStart, leadingEdgeSealed, line,
          EndAt(blocks, line))
      ==> IsOwned(blocks, line)
  }

  lemma BoundaryAtEnd(rows: Rows, line: nat, scanStart: nat, leadingEdgeSealed: bool, blocks: seq<Block>)
    requires line < |rows| && forall a, b :: 0 <= a < b < |blocks| ==>
               blocks[a].sourceRange.endLine <= blocks[b].sourceRange.startLine
    requires forall k :: 0 <= k < |blocks| ==>
               0 <= blocks[k].sourceRange.startLine < blocks[k].sourceRange.endLine <= line
    ensures LeadingBoundaryIsKnown(rows, line, scanStart, leadingEdgeSealed, EndAt(blocks, line))
            <==> LeadingBoundaryIsKnown(rows, line, scanStart, leadingEdgeSealed, PreviousEnd(blocks, |blocks|))
  {
    hide IsSealRow;
    if EndAt(blocks, line).Some? {
      var k :| 0 <= k < |blocks| && blocks[k].sourceRange.endLine == line;
      var last := blocks[|blocks| - 1];
      assert last.sourceRange.startLine < last.sourceRange.endLine <= line;
      assert k == |blocks| - 1;
    }
  }

  /** A row where nothing was found goes by. */
  lemma NothingMissedHere(rules: Rules, rows: Rows, maxBlockLines: nat, maxBlockChars: nat, offset: int,
                          scanStart: nat, leadingEdgeSealed: bool, blocks: seq<Block>, line: nat)
    requires line < |rows| && NothingIsMissed(rules, rows, maxBlockLines, maxBlockChars, offset, scanStart,
             leadingEdgeSealed, blocks, line)
    requires forall a, b :: 0 <= a < b < |blocks| ==> blocks[a].sourceRange.endLine <= blocks[b].sourceRange.startLine
    requires forall k :: 0 <= k < |blocks| ==>
               0 <= blocks[k].sourceRange.startLine < blocks[k].sourceRange.endLine <= line
    requires !MayBeFound(rules, rows, maxBlockLines, maxBlockChars, offset, scanStart, leadingEdgeSealed, line,
             PreviousEnd(blocks, |blocks|))
    ensures NothingIsMissed(rules, rows, maxBlockLines, maxBlockChars, offset, scanStart, leadingEdgeSealed, blocks,
            line + 1)
  {
    BoundaryAtEnd(rows, line, scanStart, leadingEdgeSealed, blocks);
    hide LeadingBoundaryIsKnown, HasEvidence;
  }

  /** A block found behind all others leaves out none of its rows. */
  lemma NothingMissedInBlock(rules: Rules, rows: Rows, maxBlockLines: nat, maxBlockChars: nat, offset: int,
                             scanStart: nat, leadingEdgeSealed: bool, blocks: seq<Block>, block: Block)
    requires 0 <= block.sourceRange.startLine < block.sourceRange.endLine <= |rows|
    requires NothingIsMissed(rules, rows, maxBlockLines, maxBlockChars, offset, scanStart, leadingEdgeSealed, blocks,
                             block.sourceRange.startLine)
    ensures NothingIsMissed(rules, rows, maxBlockLines, maxBlockChars, offset, scanStart, leadingEdgeSealed,
            blocks + [block],
                            block.sourceRange.endLine)
  {
    hide MayBeFound;
    var more := blocks + [block];
    forall line: nat | scanStart <= line < block.sourceRange.endLine
      && MayBeFound(rules, rows, maxBlockLines, maxBlockChars, offset, scanStart, leadingEdgeSealed, line,
          EndAt(more, line))
      ensures IsOwned(more, line)
    {
      if line < block.sourceRange.startLine {
        EndStays(blocks, block, line);
        var k :| 0 <= k < |blocks| && Holds(blocks[k].sourceRange, line);
        assert Holds(more[k].sourceRange, line);
      } else {
        assert Holds(more[|blocks|].sourceRange, line);
      }
    }
  }

  lemma EndStays(blocks: seq<Block>, block: Block, line: nat)
    requires block.sourceRange.endLine != line
    ensures EndAt(blocks + [block], line) == EndAt(blocks, line)
  {
    var more := blocks + [block];
    if EndAt(blocks, line).Some? {
      var k :| 0 <= k < |blocks| && blocks[k].sourceRange.endLine == line;
      assert more[k].sourceRange.endLine == line;
    }
    if EndAt(more, line).Some? {
      var k :| 0 <= k < |more| && more[k].sourceRange.endLine == line;
      assert blocks[k].sourceRange.endLine == line;
    }
  }

  lemma FoundIsWellProved(rules: Rules, rows: Rows, maxBlockLines: nat, maxBlockChars: nat, offset: int, block: Block)
    requires IsFound(rules, rows, maxBlockLines, maxBlockChars, offset, block)
    ensures WellProved(block, |rows|)
  {
    var plain := block.(id := block.fingerprint);
    assert WellProved(plain, |rows|) && !TrimsToNothing(block.fingerprint);
    var i :| 0 <= i < |block.fingerprint| && !IsTrimmed(block.fingerprint[i]);
    assert block.id[i] == block.fingerprint[i];
    assert forall row :: Holds(block.sourceRange, row) <==> Holds(plain.sourceRange, row);
  }

  /** Different rows, different ids, whatever the contents. */
  lemma RowIdsDiffer(a: Block, b: Block, offset: int)
    requires a.id == RowId(a.fingerprint, offset + a.sourceRange.startLine)
    requires b.id == RowId(b.fingerprint, offset + b.sourceRange.startLine)
    requires a.sourceRange.startLine != b.sourceRange.startLine
    ensures a.id != b.id
  {
    if a.id == b.id {
      SignedSuffixSplitsOnce(a.fingerprint, b.fingerprint, Ascii(":row-"), offset + a.sourceRange.startLine,
          offset + b.sourceRange.startLine);
    }
  }

  lemma FoundAreInSequence(rules: Rules, rows: Rows, maxBlockLines: nat, maxBlockChars: nat, offset: int,
                           scanStart: nat, leadingEdgeSealed: bool, found: seq<Block>)
    requires AreFound(rules, rows, maxBlockLines, maxBlockChars, offset, scanStart, leadingEdgeSealed, found)
    ensures InSequence(found, |rows|)
  {
    hide LeadingBoundaryIsKnown, IsFound, WellProved;
    forall k | 0 <= k < |found| ensures WellProved(found[k], |rows|) {
      FoundIsWellProved(rules, rows, maxBlockLines, maxBlockChars, offset, found[k]);
    }
    forall a, b | 0 <= a < b < |found| ensures found[a].id != found[b].id {
      FoundIdsDiffer(rules, rows, maxBlockLines, maxBlockChars, offset, found[a], found[b]);
    }
  }

  lemma FoundIdsDiffer(rules: Rules, rows: Rows, maxBlockLines: nat, maxBlockChars: nat, offset: int, a: Block,
      b: Block)
    requires IsFound(rules, rows, maxBlockLines, maxBlockChars, offset, a)
             && IsFound(rules, rows, maxBlockLines, maxBlockChars, offset, b)
    requires WellProved(a, |rows|) && a.sourceRange.endLine <= b.sourceRange.startLine
    ensures a.id != b.id
  {
    hide RowId, IsParsed;
    StartIsBeforeEnd(a, |rows|);
    RowIdsDiffer(a, b, offset);
  }

  lemma StartIsBeforeEnd(block: Block, lineCount: nat)
    requires WellProved(block, lineCount)
    ensures block.sourceRange.startLine < block.sourceRange.endLine
  {
  }

  /** One more block behind the others. */
  lemma OneBlockMore(rules: Rules, rows: Rows, maxBlockLines: nat, maxBlockChars: nat, offset: int,
                     scanStart: nat, leadingEdgeSealed: bool, found: seq<Block>, block: Block)
    requires AreFound(rules, rows, maxBlockLines, maxBlockChars, offset, scanStart, leadingEdgeSealed, found)
    requires IsFound(rules, rows, maxBlockLines, maxBlockChars, offset, block)
    requires forall k :: 0 <= k < |found| ==> found[k].sourceRange.endLine <= block.sourceRange.startLine
    requires IsBehindBoundary(rows, scanStart, leadingEdgeSealed, block, PreviousEnd(found, |found|))
    ensures AreFound(rules, rows, maxBlockLines, maxBlockChars, offset, scanStart, leadingEdgeSealed, found + [block])
  {
    hide IsBehindBoundary, IsFound, PreviousEnd;
    var more := found + [block];
    forall k: nat | k < |more|
      ensures IsFound(rules, rows, maxBlockLines, maxBlockChars, offset, more[k])
      ensures IsBehindBoundary(rows, scanStart, leadingEdgeSealed, more[k], PreviousEnd(more, k))
    {
      PreviousEndStays(found, block, k);
      assert more[k] == if k < |found| then found[k] else block;
    }
    FollowingStays(found, block);
  }

  lemma FollowingStays(found: seq<Block>, block: Block)
    requires forall a, b :: 0 <= a < b < |found| ==> found[a].sourceRange.endLine <= found[b].sourceRange.startLine
    requires forall k :: 0 <= k < |found| ==> found[k].sourceRange.endLine <= block.sourceRange.startLine
    ensures var more := found + [block];
            forall a, b :: 0 <= a < b < |more| ==> more[a].sourceRange.endLine <= more[b].sourceRange.startLine
  {
  }

  lemma PreviousEndStays(found: seq<Block>, block: Block, k: nat)
    requires k <= |found|
    ensures PreviousEnd(found + [block], k) == PreviousEnd(found, k)
  {
  }

  /** The first row of the newest ones that are looked at. */
  function ScanStart(rows: Rows, options: Options): (start: nat)
    ensures start <= |rows|
  {
    var maxScanLines := BoundedInteger(options.maxScanLines, 20_000, MAX_LIMIT);
    if |rows| > maxScanLines then |rows| - maxScanLines else 0
  }

  function LinesAtMost(options: Options): nat {
    BoundedInteger(options.maxBlockLines, 2000, MAX_LIMIT)
  }

  function CharsAtMost(options: Options): nat {
    BoundedInteger(options.maxBlockChars, 8 * 1024 * 1024, MAX_BLOCK_CHARS)
  }

  function BlocksAtMost(options: Options): nat {
    BoundedInteger(options.maxBlocks, 512, MAX_LIMIT)
  }

  function LineOffset(options: Options): int {
    if options.identityLineOffset.Some? then options.identityLineOffset.value else 0
  }

  /** The pane is in its normal screen and no limit is zero. */
  predicate IsScanned(options: Options) {
    && options.normalScreen && BoundedInteger(options.maxScanLines, 20_000, MAX_LIMIT) > 0
    && LinesAtMost(options) > 0 && CharsAtMost(options) > 0 && BlocksAtMost(options) > 0
  }

  /** What the scan finds before the newest blocks are picked. */
  ghost predicate IsWholeScan(rules: Rules, rows: Rows, options: Options, found: seq<Block>) {
    && AreFound(rules, rows, LinesAtMost(options), CharsAtMost(options), LineOffset(options),
                ScanStart(rows, options), options.leadingEdgeSealed, found)
    && if IsScanned(options) then
         NothingIsMissed(rules, rows, LinesAtMost(options), CharsAtMost(options), LineOffset(options),
                         ScanStart(rows, options), options.leadingEdgeSealed, found, |rows|)
       else found == []
  }

  method DetectCodexToolBlocks(rules: Rules, rows: Rows, options: Options)
    returns (detection: Detection, ghost found: seq<Block>)
    requires |rows| < MAX_ROWS
    ensures InSequence(detection.blocks, |rows|)
    ensures detection.enabled == options.normalScreen
    ensures detection.scanRange == LineRange(ScanStart(rows, options), |rows|)
    ensures IsWholeScan(rules, rows, options, found)
    ensures |detection.blocks| <= |found| && detection.blocks == found[|found| - |detection.blocks|..]
    ensures |detection.blocks| <= BlocksAtMost(options)
    ensures |detection.blocks| < |found| ==> |detection.blocks| == BlocksAtMost(options)
  {
    hide IsWholeScan, InSequence, Newest, ScanStart, BlocksAtMost;
    var scanRange := LineRange(ScanStart(rows, options), |rows|);
    if !options.normalScreen {
      NothingScanned(rules, rows, options);
      return Detection([], scanRange, false), [];
    }
    var blocks := ScanBlocks(rules, rows, options);
    SequenceSuffix(blocks, |rows|, |blocks| - |Newest(blocks, BlocksAtMost(options))|);
    return Detection(Newest(blocks, BlocksAtMost(options)), scanRange, true), blocks;
  }

  method ScanBlocks(rules: Rules, rows: Rows, options: Options) returns (blocks: seq<Block>)
    requires |rows| < MAX_ROWS
    ensures IsWholeScan(rules, rows, options, blocks) && InSequence(blocks, |rows|)
  {
    hide AreFound, NothingIsMissed, InSequence, ScanStart, LinesAtMost, CharsAtMost, BlocksAtMost, LineOffset;
    if !IsScanned(options) {
      NothingScanned(rules, rows, options);
      return [];
    }
    blocks := FindBlocks(rules, rows, LinesAtMost(options), CharsAtMost(options), LineOffset(options),
        ScanStart(rows, options), options.leadingEdgeSealed);
    FoundAreInSequence(rules, rows, LinesAtMost(options), CharsAtMost(options), LineOffset(options),
        ScanStart(rows, options), options.leadingEdgeSealed, blocks);
  }

  lemma NothingScanned(rules: Rules, rows: Rows, options: Options)
    requires !IsScanned(options)
    ensures IsWholeScan(rules, rows, options, []) && InSequence([], |rows|)
  {
    NoneAreFound(rules, rows, LinesAtMost(options), CharsAtMost(options), LineOffset(options),
        ScanStart(rows, options), options.leadingEdgeSealed);
    hide AreFound, InSequence;
  }

  /** `blocks.slice(-limit)`, for a limit above zero. */
  function Newest(blocks: seq<Block>, limit: nat): (newest: seq<Block>)
    ensures |newest| <= |blocks| && newest == blocks[|blocks| - |newest|..]
    ensures |newest| <= limit && (|newest| < |blocks| ==> |newest| == limit)
  {
    if |blocks| > limit then blocks[|blocks| - limit..] else blocks
  }

  lemma NoneAreFound(rules: Rules, rows: Rows, maxBlockLines: nat, maxBlockChars: nat, offset: int, scanStart: nat,
      leadingEdgeSealed: bool)
    ensures AreFound(rules, rows, maxBlockLines, maxBlockChars, offset, scanStart, leadingEdgeSealed, [])
    ensures InSequence([], |rows|)
  {
  }

  /** How far the scan has come: everything before `line` is settled. */
  ghost predicate FoundTo(rules: Rules, rows: Rows, maxBlockLines: nat, maxBlockChars: nat, offset: int,
                          scanStart: nat, leadingEdgeSealed: bool, blocks: seq<Block>, line: nat) {
    && scanStart <= line <= |rows|
    && NothingIsMissed(rules, rows, maxBlockLines, maxBlockChars, offset, scanStart, leadingEdgeSealed, blocks, line)
    && (forall k :: 0 <= k < |blocks| ==>
          0 <= blocks[k].sourceRange.startLine < blocks[k].sourceRange.endLine <= line)
    && AreFound(rules, rows, maxBlockLines, maxBlockChars, offset, scanStart, leadingEdgeSealed, blocks)
  }

  lemma NothingFound(rules: Rules, rows: Rows, maxBlockLines: nat, maxBlockChars: nat, offset: int,
                     scanStart: nat, leadingEdgeSealed: bool)
    requires scanStart <= |rows|
    ensures FoundTo(rules, rows, maxBlockLines, maxBlockChars, offset, scanStart, leadingEdgeSealed, [], scanStart)
  {
  }

  lemma RowPassed(rules: Rules, rows: Rows, maxBlockLines: nat, maxBlockChars: nat, offset: int,
                  scanStart: nat, leadingEdgeSealed: bool, blocks: seq<Block>, line: nat)
    requires FoundTo(rules, rows, maxBlockLines, maxBlockChars, offset, scanStart, leadingEdgeSealed, blocks, line)
    requires line < |rows|
    requires !MayBeFound(rules, rows, maxBlockLines, maxBlockChars, offset, scanStart, leadingEdgeSealed, line,
             PreviousEnd(blocks, |blocks|))
    ensures FoundTo(rules, rows, maxBlockLines, maxBlockChars, offset, scanStart, leadingEdgeSealed, blocks, line + 1)
  {
    hide MayBeFound, NothingIsMissed, IsFound, IsBehindBoundary;
    NothingMissedHere(rules, rows, maxBlockLines, maxBlockChars, offset, scanStart, leadingEdgeSealed, blocks, line);
  }

  lemma BlockTaken(rules: Rules, rows: Rows, maxBlockLines: nat, maxBlockChars: nat, offset: int,
                   scanStart: nat, leadingEdgeSealed: bool, blocks: seq<Block>, line: nat, block: Block)
    requires FoundTo(rules, rows, maxBlockLines, maxBlockChars, offset, scanStart, leadingEdgeSealed, blocks, line)
    requires IsFound(rules, rows, maxBlockLines, maxBlockChars, offset, block)
    requires block.sourceRange.startLine == line < block.sourceRange.endLine <= |rows|
    requires IsBehindBoundary(rows, scanStart, leadingEdgeSealed, block, PreviousEnd(blocks, |blocks|))
    ensures FoundTo(rules, rows, maxBlockLines, maxBlockChars, offset, scanStart, leadingEdgeSealed, blocks + [block],
            block.sourceRange.endLine)
  {
    hide NothingIsMissed, IsFound, IsBehindBoundary, AreFound, PreviousEnd;
    NothingMissedInBlock(rules, rows, maxBlockLines, maxBlockChars, offset, scanStart, leadingEdgeSealed, blocks,
        block);
    OneBlockMore(rules, rows, maxBlockLines, maxBlockChars, offset, scanStart, leadingEdgeSealed, blocks, block);
    assert forall k :: 0 <= k < |blocks| ==> (blocks + [block])[k] == blocks[k];
  }

  /** The scan over the rows. */
  method FindBlocks(rules: Rules, rows: Rows, maxBlockLines: nat, maxBlockChars: nat, offset: int, scanStart: nat,
      leadingEdgeSealed: bool)
    returns (blocks: seq<Block>)
    requires |rows| < MAX_ROWS && maxBlockLines > 0 && scanStart <= |rows|
    ensures AreFound(rules, rows, maxBlockLines, maxBlockChars, offset, scanStart, leadingEdgeSealed, blocks)
    ensures NothingIsMissed(rules, rows, maxBlockLines, maxBlockChars, offset, scanStart, leadingEdgeSealed, blocks,
            |rows|)
  {
    hide IsFound, IsBehindBoundary, MayBeFound, AreFound, NothingIsMissed, FoundTo;
    blocks := [];
    var previousCompletedEndLine: Option<nat> := None;
    var line := scanStart;
    NothingFound(rules, rows, maxBlockLines, maxBlockChars, offset, scanStart, leadingEdgeSealed);
    while line < |rows|
      invariant scanStart <= line <= |rows|
      invariant FoundTo(rules, rows, maxBlockLines, maxBlockChars, offset, scanStart, leadingEdgeSealed, blocks, line)
      invariant previousCompletedEndLine == PreviousEnd(blocks, |blocks|)
      decreases |rows| - line
    {
      var block := FindAt(rules, rows, maxBlockLines, maxBlockChars, offset, scanStart, leadingEdgeSealed, line,
          previousCompletedEndLine);
      if block.None? {
        RowPassed(rules, rows, maxBlockLines, maxBlockChars, offset, scanStart, leadingEdgeSealed, blocks, line);
        line := line + 1;
        continue;
      }
      BlockTaken(rules, rows, maxBlockLines, maxBlockChars, offset, scanStart, leadingEdgeSealed, blocks, line,
          block.value);
      blocks := blocks + [block.value];
      previousCompletedEndLine := Some(block.value.sourceRange.endLine);
      line := block.value.sourceRange.endLine;
    }
    AllFound(rules, rows, maxBlockLines, maxBlockChars, offset, scanStart, leadingEdgeSealed, blocks);
  }

  lemma AllFound(rules: Rules, rows: Rows, maxBlockLines: nat, maxBlockChars: nat, offset: int,
                 scanStart: nat, leadingEdgeSealed: bool, blocks: seq<Block>)
    requires FoundTo(rules, rows, maxBlockLines, maxBlockChars, offset, scanStart, leadingEdgeSealed, blocks, |rows|)
    ensures AreFound(rules, rows, maxBlockLines, maxBlockChars, offset, scanStart, leadingEdgeSealed, blocks)
    ensures NothingIsMissed(rules, rows, maxBlockLines, maxBlockChars, offset, scanStart, leadingEdgeSealed, blocks,
            |rows|)
  {
  }

  /** What the scan finds at one row. */
  method FindAt(rules: Rules, rows: Rows, maxBlockLines: nat, maxBlockChars: nat, offset: int, scanStart: nat,
      leadingEdgeSealed: bool,
                line: nat, previousEnd: Option<nat>)
    returns (found: Option<Block>)
    requires |rows| < MAX_ROWS && maxBlockLines > 0 && scanStart <= line < |rows|
    ensures found.Some? ==>
              && IsFound(rules, rows, maxBlockLines, maxBlockChars, offset, found.value)
              && found.value.sourceRange.startLine == line < found.value.sourceRange.endLine <= |rows|
              && IsBehindBoundary(rows, scanStart, leadingEdgeSealed, found.value, previousEnd)
    ensures found.None? ==>
              !MayBeFound(rules, rows, maxBlockLines, maxBlockChars, offset, scanStart, leadingEdgeSealed, line,
                  previousEnd)
  {
    hide IsParsed, RowId, IsSealRow, HasEvidence;
    if !LeadingBoundaryIsKnown(rows, line, scanStart, leadingEdgeSealed, previousEnd) {
      return None;
    }
    var parsed := ParseAt(rules, rows, line, maxBlockLines, maxBlockChars);
    if parsed.None? || !IsSafeInteger(offset + line) {
      return None;
    }
    ParsedStartsThere(rules, rows, line, maxBlockLines, maxBlockChars, parsed.value);
    var block := parsed.value.(id := RowId(parsed.value.fingerprint, offset + line));
    assert block.(id := block.fingerprint) == parsed.value;
    return Some(block);
  }

  lemma ParsedStartsThere(rules: Rules, rows: Rows, start: nat, maxBlockLines: nat, maxBlockChars: nat, block: Block)
    requires IsParsed(rules, rows, start, maxBlockLines, maxBlockChars, block)
    ensures block.sourceRange.startLine == start < block.sourceRange.endLine <= |rows| && block.id == block.fingerprint
  {
  }

  /** Whatever is detected, the projection accepts it as it is. */
  lemma DetectedAreAccepted(rows: Rows, detection: Detection, v: Validation)
    requires InSequence(detection.blocks, |rows|) && IsValidation(detection.blocks, |rows|, v)
    ensures v == Validation(detection.blocks, [])
  {
    SequenceIsAccepted(detection.blocks, |rows|, v);
  }

  lemma RowsPassGuard(rules: Rules, rows: Rows, maxBlockLines: nat, maxBlockChars: nat, offset: int, block: Block,
      line: nat)
    requires IsFound(rules, rows, maxBlockLines, maxBlockChars, offset, block)
    requires block.sourceRange.startLine < line < block.sourceRange.endLine
    ensures line < |rows|
    ensures || IsSealRow(rows[line])
            || (block.kind == AgentWait && line == block.sourceRange.startLine + 2 && rules.finishedWaiting(rows[line]))
            || !IsProtectedSemanticRow(rules, rows[line],
                 (block.kind == BackgroundWait || block.kind == BackgroundInteraction)
                 && line > block.sourceRange.startLine + 1)
  {
    hide IsSealRow, IsProtectedSemanticRow, WellProved, Accepts, Asked, Announced, EndsBody, RowId;
    var start, end := block.sourceRange.startLine, block.sourceRange.endLine;
    assert IsEvident(rules, rows, maxBlockLines, maxBlockChars, block.(id := block.fingerprint));
    AnnouncedKind(rules, rows, start, end);
  }

  lemma AnnouncedKind(rules: Rules, rows: Rows, start: nat, end: nat)
    requires start < end <= |rows|
    ensures var header, kind := rules.header(rows[start]), Announced(rules, rows, start, end).kind;
            && (header.WaitingForAgents? ==> kind == AgentWait)
            && (header.WaitedHeader? ==> kind == BackgroundWait)
            && (header.InteractionHeader? ==> kind == BackgroundInteraction)
            && (kind == BackgroundWait || kind == BackgroundInteraction ==>
                  header.WaitedHeader? || header.InteractionHeader?)
  {
    hide Fingerprint;
  }

  /** No guarded row is hidden: every row of a block behind its header is a blank, or passed the
      guard; only the second header of a waiting pair stands on its own evidence. */
  lemma GuardedRowsAreNotHidden(rules: Rules, rows: Rows, maxBlockLines: nat, maxBlockChars: nat, offset: int,
      block: Block, line: nat)
    requires IsFound(rules, rows, maxBlockLines, maxBlockChars, offset, block)
    requires block.sourceRange.startLine < line < block.sourceRange.endLine
    ensures line < |rows|
    ensures || IsSealRow(rows[line])
            || (block.kind == AgentWait && line == block.sourceRange.startLine + 2 && rules.finishedWaiting(rows[line]))
            || (|rows[line]| <= MAX_ROW_CHARS && rules.complete(rows[line])
                && !rules.guarded(rows[line],
                      (block.kind == BackgroundWait || block.kind == BackgroundInteraction)
                      && line > block.sourceRange.startLine + 1))
  {
    hide IsFound, IsSealRow;
    RowsPassGuard(rules, rows, maxBlockLines, maxBlockChars, offset, block, line);
  }
}
