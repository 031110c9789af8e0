/** What detection of Codex events comes to in terms of the rows: which rows behind a header make
    its event, what is hidden for it, and that every such event behind a boundary is found. */
module CodexEvents {
  import opened Wrappers
  import opened Text
  import opened Sequences
  import opened TerminalControls
  import opened ToolBlocks
  import opened CodexTools

  // ---- Rows and their length -------------------------------------------------------------------------

  function Joined(rows: Rows): Text {
    if rows == [] then [] else Joined(rows[..|rows| - 1]) + rows[|rows| - 1]
  }

  lemma {:induction false} CharsAreLength(rows: Rows, start: nat, end: nat)
    requires start <= end <= |rows|
    ensures Chars(rows, start, end) == |Joined(rows[start..end])|
    decreases end
  {
    if start < end {
      CharsAreLength(rows, start, end - 1);
      assert rows[start..end][..end - start - 1] == rows[start..end - 1];
    }
  }

  lemma {:induction false} AskedAreTheOthers(rows: Rows, start: nat, end: nat)
    requires start <= end <= |rows|
    ensures Asked(rows, start, end) == Keep(rows[start..end], raw => !IsBlankRow(raw))
    decreases end
  {
    hide IsBlankRow;
    if start < end {
      AskedAreTheOthers(rows, start, end - 1);
      assert rows[start..end][..end - start - 1] == rows[start..end - 1];
    }
  }

  /** A row that may be hidden: short enough, complete in its controls, and not guarded. */
  predicate MayHide(rules: Rules, raw: Text, softened: bool) {
    |raw| <= 65_536 && rules.complete(raw) && !rules.guarded(raw, softened)
  }

  // ---- Bodies -----------------------------------------------------------------------------------------

  /** A row of details, by what its header owns; `asked` are the details in front of it. */
  ghost predicate IsDetail(rules: Rules, detail: Detail, header: Text, asked: seq<Text>, raw: Text, offset: nat) {
    && !IsBlankRow(raw) && MayHide(rules, raw, detail == CommandDetail && offset > 0)
    && (detail == RanDetail ==> rules.ranDetail(header, asked, raw))
    && (detail == CommandDetail ==> rules.commandDetail(header, asked, raw))
    && (detail == EditDetail ==> rules.dimDetail(header, asked, raw))
    && (detail == WaitResult ==> if offset == 0 then rules.treeReset(raw) else rules.dimRow(raw))
    && (detail == ImageDetail ==> if offset == 0 then rules.treeDetail(raw) else rules.dimRow(raw))
  }

  /** Row `k` is such a row behind the header at `start`: the details in front of it are the rows
      between them that are not blank. */
  ghost predicate IsDetailAt(rules: Rules, rows: Rows, start: nat, detail: Detail, k: nat)
    requires start < k < |rows|
  {
    IsDetail(rules, detail, rows[start], Keep(rows[start + 1..k], raw => !IsBlankRow(raw)), rows[k], k - start - 1)
  }

  /** Blanks begin at `k`. */
  predicate BlanksBegin(rows: Rows, start: nat, k: nat)
    requires start < k < |rows|
  {
    IsBlankRow(rows[k]) && (k == start + 1 || !IsBlankRow(rows[k - 1]))
  }

  /** The body of a command goes on behind the blanks at `k`. */
  ghost predicate GoesOn(rules: Rules, rows: Rows, start: nat, maxBlockLines: nat, detail: Detail, k: nat) {
    && detail == CommandDetail
    && exists next: nat ::
         && k < next < |rows| && next <= start + maxBlockLines
         && (forall b :: k <= b < next ==> IsBlankRow(rows[b])) && !IsBlankRow(rows[next])
         && MayHide(rules, rows[next], k > start + 1) && rules.continuationDetail(rows[next])
  }

  ghost predicate IsBody(rules: Rules, rows: Rows, start: nat, end: nat, maxBlockLines: nat, maxBlockChars: nat,
      detail: Detail)
    requires start < |rows|
  {
    && start < end < |rows| && end <= start + maxBlockLines && |Joined(rows[start..end])| <= maxBlockChars
    && (forall k: nat :: start < k < end ==>
          IsBlankRow(rows[k]) || IsDetailAt(rules, rows, start, detail, k))
    && (forall k: nat :: start < k < end && BlanksBegin(rows, start, k) ==>
          GoesOn(rules, rows, start, maxBlockLines, detail, k))
    && BlanksBegin(rows, start, end) && !GoesOn(rules, rows, start, maxBlockLines, detail, end)
  }

  lemma DetailMeaning(rules: Rules, search: Search, k: nat)
    requires search.Valid() && search.startLine < k < |search.rows|
    ensures IsDetailRow(rules, search, k) <==>
              IsDetailAt(rules, search.rows, search.startLine, search.detail, k)
  {
    AskedAreTheOthers(search.rows, search.startLine + 1, k);
    hide IsBlankRow;
  }

  lemma EndMeaning(rules: Rules, search: Search, k: nat)
    requires search.Valid() && search.startLine < k < |search.rows| && k <= search.startLine + search.maxBlockLines
    ensures EndsBody(rules, search, k) <==>
              && BlanksBegin(search.rows, search.startLine, k)
              && !GoesOn(rules, search.rows, search.startLine, search.maxBlockLines, search.detail, k)
  {
    hide IsBlankRow;
    forall next: nat
      ensures ContinuesAt(rules, search, k, next) <==>
                && search.detail == CommandDetail
                && k < next < |search.rows| && next <= search.startLine + search.maxBlockLines
                && (forall b :: k <= b < next ==> IsBlankRow(search.rows[b])) && !IsBlankRow(search.rows[next])
                && MayHide(rules, search.rows[next], k > search.startLine + 1)
                && rules.continuationDetail(search.rows[next])
    {
    }
    hide ContinuesAt;
  }

  lemma EndIsInReach(rules: Rules, search: Search, end: nat)
    requires search.Valid()
    ensures EndsBody(rules, search, end) ==>
              search.startLine < end < |search.rows| && end <= search.startLine + search.maxBlockLines
  {
  }

  lemma BlanksBeginWithBlank(rows: Rows, start: nat, k: nat)
    requires start < k < |rows|
    ensures BlanksBegin(rows, start, k) ==> IsBlankRow(rows[k])
  {
  }

  /** A sealed body, in terms of its rows. */
  lemma SealedBodyMeaning(rules: Rules, search: Search, end: nat)
    requires search.Valid()
    ensures IsSealedBody(rules, search, end) <==>
              IsBody(rules, search.rows, search.startLine, end, search.maxBlockLines, search.maxBlockChars,
                search.detail)
  {
    hide IsDetailRow, EndsBody, IsDetailAt, GoesOn, IsBlankRow, BlanksBegin, Joined, Chars;
    var rows, start := search.rows, search.startLine;
    EndIsInReach(rules, search, end);
    if start < end < |rows| && end <= start + search.maxBlockLines {
      CharsAreLength(rows, start, end);
      forall k: nat | start < k <= end
        ensures IsDetailRow(rules, search, k) <==> IsDetailAt(rules, rows, start, search.detail, k)
        ensures EndsBody(rules, search, k) <==>
                  BlanksBegin(rows, start, k)
                  && !GoesOn(rules, rows, start, search.maxBlockLines, search.detail, k)
      {
        DetailMeaning(rules, search, k);
        EndMeaning(rules, search, k);
        BlanksBeginWithBlank(rows, start, k);
      }
    }
  }

  // ---- Events -----------------------------------------------------------------------------------------

  /** `Waiting for agents`, a blank, `Finished waiting`, results, a blank. */
  ghost predicate IsPair(rules: Rules, rows: Rows, start: nat, end: nat, maxBlockLines: nat, maxBlockChars: nat)
    requires start < |rows|
  {
    && start + 3 <= end < |rows| && end <= start + maxBlockLines
    && IsBlankRow(rows[start + 1]) && rules.finishedWaiting(rows[start + 2]) && IsBlankRow(rows[end])
    && |rows[start]| + |rows[start + 2]| + |Joined(rows[start + 3..end])| <= maxBlockChars
    && forall k :: start + 3 <= k < end ==>
         && !IsBlankRow(rows[k]) && MayHide(rules, rows[k], false)
         && (rules.treeReset(rows[k]) || rules.dimRow(rows[k]))
  }

  lemma PairMeaning(rules: Rules, search: Search, end: nat)
    requires search.Valid()
    ensures IsWaitingPair(rules, search, end) <==>
              IsPair(rules, search.rows, search.startLine, end, search.maxBlockLines, search.maxBlockChars)
  {
    hide IsBlankRow;
    if search.startLine + 3 <= end <= |search.rows| {
      CharsAreLength(search.rows, search.startLine + 3, end);
    }
  }

  /** The rows from `start` to `end` are the event that the row `start` announces. */
  ghost predicate IsEvent(rules: Rules, rows: Rows, start: nat, end: nat, maxBlockLines: nat, maxBlockChars: nat)
    requires start < |rows|
  {
    var header := rules.header(rows[start]);
    && |rows[start]| <= 65_536 && |rows[start]| <= maxBlockChars && rules.complete(rows[start])
    && start < end <= |rows| && !header.NoHeader?
    && (header.RunGroupHeader? ==>
          end == start + 1 && header.plural == if header.count == [0x31] then [] else [0x73])
    && (header.AgentInteractionHeader? || header.StartedHeader? || header.CompletedHeader? ==>
          end == start + 1 && end < |rows| && IsBlankRow(rows[end]))
    && (header.WaitingForAgents? ==> IsPair(rules, rows, start, end, maxBlockLines, maxBlockChars))
    && (header.RanHeader? || header.ViewedImage? || header.EditedHeader? ==> end > start + 1)
    && (header.RanHeader? ==>
          && rules.sawDimDetail(rows[start], rows[start + 1..end])
          && IsBody(rules, rows, start, end, maxBlockLines, maxBlockChars, RanDetail))
    && (header.WaitedHeader? || header.InteractionHeader? ==>
          IsBody(rules, rows, start, end, maxBlockLines, maxBlockChars, CommandDetail))
    && (header.FinishedWaiting? ==> IsBody(rules, rows, start, end, maxBlockLines, maxBlockChars, WaitResult))
    && (header.ViewedImage? ==> IsBody(rules, rows, start, end, maxBlockLines, maxBlockChars, ImageDetail))
    && (header.EditedHeader? ==> IsBody(rules, rows, start, end, maxBlockLines, maxBlockChars, EditDetail))
  }

  lemma CountsAndPlurals()
    ensures Ascii("1") == [0x31] && Ascii("s") == [0x73]
  {
  }

  /** Evidence for a header is the event in the rows. */
  lemma EvidenceMeaning(rules: Rules, rows: Rows, start: nat, end: nat, maxBlockLines: nat, maxBlockChars: nat)
    requires start < |rows|
    ensures HasEvidence(rules, rows, start, maxBlockLines, maxBlockChars, end) <==>
              IsEvent(rules, rows, start, end, maxBlockLines, maxBlockChars)
  {
    CountsAndPlurals();
    forall detail: Detail
      ensures IsSealedBody(rules, Search(rows, start, maxBlockLines, maxBlockChars, detail), end) <==>
                IsBody(rules, rows, start, end, maxBlockLines, maxBlockChars, detail)
    {
      SealedBodyMeaning(rules, Search(rows, start, maxBlockLines, maxBlockChars, detail), end);
    }
    PairMeaning(rules, Search(rows, start, maxBlockLines, maxBlockChars, WaitResult), end);
    hide IsSealedBody, IsWaitingPair, IsBody, IsPair, IsBlankRow;
  }

  // ---- Blocks -----------------------------------------------------------------------------------------

  /** What a header's event is filed under. */
  predicate IsKindOf(header: Header, kind: BlockKind) {
    && (kind == RunGroup <==> header.RunGroupHeader?)
    && (kind == Run <==> header.RanHeader?)
    && (kind == BackgroundWait <==> header.WaitedHeader?)
    && (kind == BackgroundInteraction <==> header.InteractionHeader?)
    && (kind == AgentWait <==> header.WaitingForAgents? || header.FinishedWaiting?)
    && (kind == ViewImage <==> header.ViewedImage?)
    && (kind == AgentInteraction <==> header.AgentInteractionHeader?)
    && (kind == AgentStart <==> header.StartedHeader?)
    && (kind == AgentComplete <==> header.CompletedHeader?)
    && (kind == Edit <==> header.EditedHeader?)
  }

  /** A block hides its whole event, except that the header of an edit stays shown; its proof
      reaches over the blank row behind it, which a run group does not have. */
  lemma BlockMeaning(rules: Rules, rows: Rows, start: nat, end: nat)
    requires start < end <= |rows| && !rules.header(rows[start]).NoHeader?
    ensures var header, block := rules.header(rows[start]), Announced(rules, rows, start, end);
            && block.provider == Codex && IsKindOf(header, block.kind)
            && block.outcome == (if header.RunGroupHeader? || header.RanHeader? then Succeeded else Completed)
            && block.sourceRange == LineRange(start, end)
            && block.proofRange == LineRange(start, if header.RunGroupHeader? then end else end + 1)
            && block.collapseRanges == [LineRange(if header.EditedHeader? then start + 1 else start, end)]
            && block.protectedRanges == (if header.EditedHeader? then [LineRange(start, start + 1)] else [])
  {
    hide Fingerprint;
  }

  /** The digest tells its arguments apart. */
  ghost predicate TellsApart(rules: Rules) {
    forall kind, outcome, content, kind', outcome', content' ::
      rules.digest(kind, outcome, content) == rules.digest(kind', outcome', content') ==>
        kind == kind' && outcome == outcome' && content == content'
  }

  /** Rows behind a header that have a part in the event's identity. */
  function Content(rules: Rules, rows: Rows, start: nat, end: nat): seq<Text>
    requires start < end <= |rows|
  {
    match rules.header(rows[start])
    case RunGroupHeader(_, _) => []
    case AgentInteractionHeader(_) => []
    case StartedHeader(_) => []
    case CompletedHeader(_) => []
    case WaitingForAgents => Visible(rules, rows, start + 3, end)
    case _ => rows[start + 1..end]
  }

  /** What the fingerprint is taken of. */
  function Parts(header: Header, content: seq<Text>): seq<Text> {
    match header
    case RunGroupHeader(count, plural) => [Ascii("Ran ") + count + Ascii(" command") + plural]
    case RanHeader(fragment) => [fragment] + content
    case WaitedHeader(tail) => [tail] + content
    case InteractionHeader(tail) => [tail] + content
    case WaitingForAgents => [Ascii("Waiting for agents"), Ascii("Finished waiting")] + content
    case FinishedWaiting => [Ascii("Finished waiting")] + content
    case ViewedImage => content
    case AgentInteractionHeader(agent) => [agent]
    case StartedHeader(agent) => [agent]
    case CompletedHeader(agent) => [agent]
    case EditedHeader(path, added, removed) => [path, added, removed] + content
    case NoHeader => []
  }

  lemma FingerprintOfParts(rules: Rules, rows: Rows, start: nat, end: nat)
    requires start < end <= |rows|
    ensures var block := Announced(rules, rows, start, end);
            block.fingerprint == Ascii("tool-v1-") + rules.digest(block.kind, block.outcome,
              Normalized(Parts(rules.header(rows[start]), Content(rules, rows, start, end))))
  {
    hide Normalized;
  }

  lemma {:induction false} VisibleJoins(a: seq<Text>, b: seq<Text>)
    ensures VisibleOf(a + b) == VisibleOf(a) + VisibleOf(b)
    decreases |b|
  {
    hide VisibleText;
    if b == [] {
      assert a + b == a;
    } else {
      VisibleJoins(a, b[..|b| - 1]);
      assert (a + b)[..|a + b| - 1] == a + b[..|b| - 1];
      ConcatAssociates(VisibleOf(a), VisibleOf(b[..|b| - 1]), VisibleText(b[|b| - 1], Stripper));
    }
  }

  lemma NormalizedJoins(a: seq<Text>, b: seq<Text>)
    ensures Normalized(a + b) == Normalized(a) + Normalized(b)
  {
    VisibleJoins(a, b);
    KeepJoins(VisibleOf(a), VisibleOf(b), IsInk());
  }

  lemma {:induction false} PlainRowsAreVisible(rows: Rows)
    requires forall k :: 0 <= k < |rows| ==> ESC !in rows[k]
    ensures VisibleOf(rows) == Joined(rows)
    decreases |rows|
  {
    if rows != [] {
      var last := rows[|rows| - 1];
      PlainRowsAreVisible(rows[..|rows| - 1]);
      PlainIsVisible(last, 0, Stripper);
      assert last[0..] == last;
    }
  }

  /** Of rows without controls only their units count, in a row and without blanks: it does not
      matter where they were wrapped. */
  lemma WrappingDoesNotCount(rows: Rows, rows': Rows)
    requires forall k :: 0 <= k < |rows| ==> ESC !in rows[k]
    requires forall k :: 0 <= k < |rows'| ==> ESC !in rows'[k]
    ensures Normalized(rows) == Normalized(rows') <==> Keep(Joined(rows), IsInk()) == Keep(Joined(rows'), IsInk())
  {
    PlainRowsAreVisible(rows);
    PlainRowsAreVisible(rows');
  }

  /** Header and content follow one another in what the fingerprint is taken of. */
  lemma PartsAreFrontAndContent(header: Header, content: seq<Text>) returns (front: seq<Text>)
    requires IsOneLine(header) ==> content == []
    ensures Parts(header, content) == front + content && front == Parts(header, [])
  {
    front := Parts(header, []);
    assert content == [] ==> front + content == front;
  }

  /** The header is all there is of the event. */
  predicate IsOneLine(header: Header) {
    || header.RunGroupHeader? || header.AgentInteractionHeader? || header.StartedHeader? || header.CompletedHeader?
    || header.NoHeader?
  }

  lemma SameFront(front: Text, a: Text, b: Text)
    ensures front + a == front + b <==> a == b
  {
    assert (front + a)[|front|..] == a && (front + b)[|front|..] == b;
  }

  /** Events have one fingerprint exactly when they are of one kind and outcome and say the same,
      wherever they stand, however they are painted and wrapped; below one and the same header,
      exactly when the rows behind it do. */
  lemma FingerprintMeaning(rules: Rules, rows: Rows, start: nat, end: nat, rows': Rows, start': nat, end': nat)
    requires TellsApart(rules) && start < end <= |rows| && start' < end' <= |rows'|
    requires !rules.header(rows[start]).NoHeader? && !rules.header(rows'[start']).NoHeader?
    ensures var a, b := Announced(rules, rows, start, end), Announced(rules, rows', start', end');
            var header, header' := rules.header(rows[start]), rules.header(rows'[start']);
            var content, content' := Content(rules, rows, start, end), Content(rules, rows', start', end');
            && (a.fingerprint == b.fingerprint <==>
                  && a.kind == b.kind && a.outcome == b.outcome
                  && Normalized(Parts(header, content)) == Normalized(Parts(header', content')))
            && (header == header' ==> (a.fingerprint == b.fingerprint <==> Normalized(content) == Normalized(content')))
  {
    var a, b := Announced(rules, rows, start, end), Announced(rules, rows', start', end');
    var header, header' := rules.header(rows[start]), rules.header(rows'[start']);
    var content, content' := Content(rules, rows, start, end), Content(rules, rows', start', end');
    BlockMeaning(rules, rows, start, end);
    BlockMeaning(rules, rows', start', end');
    FingerprintOfParts(rules, rows, start, end);
    FingerprintOfParts(rules, rows', start', end');
    SameDigest(rules, a.kind, a.outcome, Normalized(Parts(header, content)), b.kind, b.outcome,
               Normalized(Parts(header', content')));
    var front := PartsAreFrontAndContent(header, content);
    var front' := PartsAreFrontAndContent(header', content');
    hide Announced, Parts, Content, Normalized, TellsApart;
    NormalizedJoins(front, content);
    NormalizedJoins(front', content');
    SameFront(Normalized(front), Normalized(content), Normalized(content'));
    assert header == header' ==> a.kind == b.kind && a.outcome == b.outcome by {
      SameHeaderSameKind(header, a.kind, b.kind);
    }
  }

  lemma SameHeaderSameKind(header: Header, kind: BlockKind, kind': BlockKind)
    ensures IsKindOf(header, kind) && IsKindOf(header, kind') && !header.NoHeader? ==> kind == kind'
  {
  }

  lemma SameDigest(rules: Rules, kind: BlockKind, outcome: Outcome, content: Text, kind': BlockKind,
      outcome': Outcome, content': Text)
    requires TellsApart(rules)
    ensures Ascii("tool-v1-") + rules.digest(kind, outcome, content) ==
            Ascii("tool-v1-") + rules.digest(kind', outcome', content') <==>
              kind == kind' && outcome == outcome' && content == content'
  {
    SameFront(Ascii("tool-v1-"), rules.digest(kind, outcome, content), rules.digest(kind', outcome', content'));
  }

  // ---- Detection --------------------------------------------------------------------------------------

  /** A certain place in front of row `line`: the end of a block found, a blank row that was
      scanned, or the sealed edge of a capture that is scanned from its first row. */
  ghost predicate IsBehindCertainty(rows: Rows, scanStart: nat, sealed: bool, found: seq<Block>, line: nat)
    requires line < |rows|
  {
    || (exists k :: 0 <= k < |found| && found[k].sourceRange.endLine == line)
    || (line == 0 && scanStart == 0 && sealed)
    || (line > scanStart && IsBlankRow(rows[line - 1]))
  }

  /** The block of an event: its id is its fingerprint and its absolute row. */
  ghost predicate IsBlockOf(rules: Rules, rows: Rows, offset: int, line: nat, end: nat, block: Block)
    requires line < end <= |rows|
  {
    && block.(id := block.fingerprint) == Announced(rules, rows, line, end)
    && block.id == block.fingerprint + Ascii(":row-") + SignedDecimal(offset + line)
  }

  /** The blocks found are events behind certain places. */
  lemma FoundAreEvents(rules: Rules, rows: Rows, maxBlockLines: nat, maxBlockChars: nat, offset: int,
      scanStart: nat, sealed: bool, found: seq<Block>, k: nat) returns (line: nat, end: nat)
    requires AreFound(rules, rows, maxBlockLines, maxBlockChars, offset, scanStart, sealed, found) && k < |found|
    ensures scanStart <= line < end <= |rows| && found[k].sourceRange == LineRange(line, end)
    ensures IsEvent(rules, rows, line, end, maxBlockLines, maxBlockChars)
    ensures IsBlockOf(rules, rows, offset, line, end, found[k])
    ensures IsBehindCertainty(rows, scanStart, sealed, found, line)
  {
    var block := found[k].(id := found[k].fingerprint);
    assert IsFound(rules, rows, maxBlockLines, maxBlockChars, offset, found[k]);
    assert IsBehindBoundary(rows, scanStart, sealed, found[k], PreviousEnd(found, k));
    assert IsEvident(rules, rows, maxBlockLines, maxBlockChars, block);
    line, end := found[k].sourceRange.startLine, found[k].sourceRange.endLine;
    hide AreFound, IsBlankRow, WellProved, HasEvidence;
    EvidenceMeaning(rules, rows, line, end, maxBlockLines, maxBlockChars);
    hide IsEvent, Announced;
    assert found[k].sourceRange == block.sourceRange;
  }

  /** An event behind a certain place is found, unless a block that began before it owns its row. */
  lemma EventIsFound(rules: Rules, rows: Rows, maxBlockLines: nat, maxBlockChars: nat, offset: int,
      scanStart: nat, sealed: bool, found: seq<Block>, line: nat, end: nat) returns (k: nat)
    requires AreFound(rules, rows, maxBlockLines, maxBlockChars, offset, scanStart, sealed, found)
    requires NothingIsMissed(rules, rows, maxBlockLines, maxBlockChars, offset, scanStart, sealed, found, |rows|)
    requires scanStart <= line < |rows| && IsSafeInteger(offset + line)
    requires IsBehindCertainty(rows, scanStart, sealed, found, line)
    requires IsEvent(rules, rows, line, end, maxBlockLines, maxBlockChars)
    ensures k < |found| && Holds(found[k].sourceRange, line)
    ensures found[k].sourceRange.startLine < line || IsBlockOf(rules, rows, offset, line, end, found[k])
  {
    EvidenceMeaning(rules, rows, line, end, maxBlockLines, maxBlockChars);
    CertaintyIsBoundary(rows, scanStart, sealed, found, line);
    assert MayBeFound(rules, rows, maxBlockLines, maxBlockChars, offset, scanStart, sealed, line, EndAt(found, line))
    by {
      hide LeadingBoundaryIsKnown, EndAt;
    }
    k :| k < |found| && Holds(found[k].sourceRange, line);
    var start, other := FoundAreEvents(rules, rows, maxBlockLines, maxBlockChars, offset, scanStart, sealed, found, k);
    EvidenceMeaning(rules, rows, start, other, maxBlockLines, maxBlockChars);
    hide AreFound, NothingIsMissed, MayBeFound, IsEvent, HasEvidence, IsBehindCertainty, LeadingBoundaryIsKnown;
    if start == line {
      OneEvidence(rules, rows, line, maxBlockLines, maxBlockChars, end, other);
    }
  }

  lemma CertaintyIsBoundary(rows: Rows, scanStart: nat, sealed: bool, found: seq<Block>, line: nat)
    requires line < |rows| && scanStart <= line && IsBehindCertainty(rows, scanStart, sealed, found, line)
    ensures LeadingBoundaryIsKnown(rows, line, scanStart, sealed, EndAt(found, line))
  {
  }

  /** Limits as the options give them. */
  lemma LimitMeaning(value: Option<int>, fallback: nat, maximum: nat)
    ensures value.None? ==> BoundedInteger(value, fallback, maximum) == fallback
    ensures value.Some? ==>
              var bounded := BoundedInteger(value, fallback, maximum);
              && bounded <= maximum && (bounded > value.value ==> bounded == 0)
              && (bounded < value.value ==> bounded == maximum)
  {
  }

  /** With no options but a normal screen: the newest 20,000 rows, blocks of at most 2,000 rows
      and 8 MiB, and the newest 512 of them. */
  lemma DefaultLimits(rows: Rows, options: Options)
    requires options.maxScanLines.None? && options.maxBlockLines.None? && options.maxBlockChars.None?
    requires options.maxBlocks.None? && options.normalScreen
    ensures IsScanned(options)
    ensures ScanStart(rows, options) == if |rows| > 20_000 then |rows| - 20_000 else 0
    ensures LinesAtMost(options) == 2_000 && CharsAtMost(options) == 8_388_608 && BlocksAtMost(options) == 512
  {
  }
}
