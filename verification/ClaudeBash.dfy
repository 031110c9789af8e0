/** Finding Claude Bash calls in terminal rows (core/src/claude-bash.ts). Rows are classified
    from outside; what is exact is which rows a call takes, when it counts as completed, and
    where the scan goes on after a shape that cannot be decided. */
module ClaudeBash {
  import opened Wrappers
  import opened Text

  datatype Status = Completed | Active

  datatype Header = Header(status: Status, firstText: Text)

  datatype Boundary = TopLevel | UserPrompt | ComposerRule | Dialog | Approval

  /** The rows of a capture, and what their text and paint say of each by its index. */
  datatype Screen = Screen(
    rows: seq<Text>,
    header: nat -> Option<Header>,
    strongHeader: nat -> bool,
    delimiter: nat -> bool,
    liveRunning: nat -> bool,
    activity: nat -> bool,
    contextual: nat -> bool,
    boundary: nat -> Option<Boundary>,
    calibrated: nat -> bool,
    rounded: nat -> bool,
    composerRule: nat -> Option<nat>,
    composerPrompt: nat -> bool,
    cells: nat -> nat,
    blank: nat -> bool,
    commandText: (nat, nat, Text) -> Text,
    outputText: (nat, nat) -> Text,
    fingerprint: (Text, Text, Status) -> Text)

  const MAX_CANDIDATE_ROW_CHARS: nat := 65536
  const MIN_PLAUSIBLE_SOFT_WRAP_CELLS: nat := 64

  // ---- Previews -------------------------------------------------------------------------------

  /** At most `maxChars` units, without the first half of a surrogate pair at the cut. */
  function TruncateUtf16(text: Text, maxChars: nat): (cut: (Text, bool))
    ensures |cut.0| <= maxChars && cut.0 <= text
    ensures cut.1 <==> cut.0 != text
    ensures cut.1 ==> |cut.0| + 1 >= maxChars && !IsSurrogatePairAt(text, |cut.0| - 1)
    ensures cut.1 && |cut.0| < maxChars ==> IsHighSurrogate(text[maxChars - 1])
  {
    if |text| <= maxChars then (text, false)
    else if maxChars == 0 then ([], true)
    else if IsHighSurrogate(text[maxChars - 1]) then (text[..maxChars - 1], true)
    else (text[..maxChars], true)
  }

  // ---- Boundaries -----------------------------------------------------------------------------

  datatype Limits = Limits(maxBlockLines: nat, maxCommandChars: nat, maxOutputChars: nat,
                           paneColumns: Option<nat>, activityStatusLines: set<nat>)

  /** A status row that was seen to repaint: it ends a call like a marker does. */
  predicate IsProvenActivity(screen: Screen, limits: Limits, i: nat) {
    screen.activity(i) && screen.contextual(i) && i in limits.activityStatusLines
  }

  /** What kind of boundary a row is for a call above it. An unproven status row is none. */
  function BoundaryAt(screen: Screen, limits: Limits, i: nat): Option<Boundary> {
    if screen.header(i).Some? || IsProvenActivity(screen, limits, i) then Some(TopLevel)
    else if screen.activity(i) then None
    else screen.boundary(i)
  }

  /** What the scan does at a boundary row: give the candidate up, with or without a quarantine
      of what follows, end it here, or go on because the row may be wrapped output. */
  datatype Decision = Reject(quarantine: bool) | End(completion: bool) | GoOn

  predicate FillsPane(screen: Screen, limits: Limits, i: nat)
    requires i > 0
  {
    limits.paneColumns == Some(screen.cells(i - 1))
  }

  /** The row above is wide enough to have wrapped at some other width. */
  predicate CouldFillAnotherPane(screen: Screen, limits: Limits, i: nat)
    requires i > 0
  {
    screen.cells(i - 1) >= MIN_PLAUSIBLE_SOFT_WRAP_CELLS && !FillsPane(screen, limits, i)
  }

  function DecideAt(screen: Screen, limits: Limits, i: nat, boundary: Boundary, hasDelimiter: bool, ambiguous: bool,
      softWrapped: bool): Decision
    requires i > 0
  {
    var proven := IsProvenActivity(screen, limits, i);
    var fills, couldFill := FillsPane(screen, limits, i), CouldFillAnotherPane(screen, limits, i);
    var calibratedTopLevel := boundary == TopLevel && (proven || screen.calibrated(i));
    var rejectedAmbiguous := Reject(screen.header(i).Some?);
    if ambiguous && !proven then Reject(false)
    else if boundary == UserPrompt then
      if !hasDelimiter || fills || couldFill then Reject(true) else End(false)
    else if !hasDelimiter then
      if boundary == Dialog || boundary == Approval then Reject(false) else End(true)
    else if boundary == Approval then Reject(false)
    else if boundary == Dialog && screen.rounded(i) then Reject(true)
    else if boundary == ComposerRule && screen.composerRule(i).Some? then
      if ambiguous then Reject(false)
      else if fills || (couldFill && !softWrapped) then rejectedAmbiguous
      else End(true)
    else if couldFill && !softWrapped then rejectedAmbiguous
    else if fills && calibratedTopLevel then rejectedAmbiguous
    else if fills then GoOn
    else if softWrapped && boundary == TopLevel && !calibratedTopLevel then Reject(false)
    else if boundary == Dialog || boundary == ComposerRule then Reject(false)
    else End(true)
  }

  /** Approvals and prompts never let the scan go on, and an approval never ends a call either. */
  lemma HardBoundariesStop(screen: Screen, limits: Limits, i: nat, boundary: Boundary, hasDelimiter: bool,
      ambiguous: bool, softWrapped: bool)
    requires i > 0
    ensures var decision := DecideAt(screen, limits, i, boundary, hasDelimiter, ambiguous, softWrapped);
            && (boundary == Approval ==> decision.Reject?)
            && (boundary == UserPrompt ==> !decision.GoOn? && decision != End(true))
            && (decision.GoOn? ==> hasDelimiter)
            && (decision == End(false) ==> hasDelimiter)
  {
  }

  function NewestComposer(screen: Screen, line: nat, end: nat): (newest: Option<nat>)
    ensures newest.Some? ==> line < newest.value < end && screen.composerRule(newest.value).Some?
    ensures newest.Some? ==> forall k :: newest.value < k < end ==> screen.composerRule(k).None?
    ensures newest.None? ==> forall k :: line < k < end ==> screen.composerRule(k).None?
  {
    if end <= line + 1 then None
    else if screen.composerRule(end - 1).Some? then Some(end - 1)
    else NewestComposer(screen, line, end - 1)
  }

  /** Where a quarantine ends: at the newest composer behind the row, or with the scan. */
  function ResumeLine(screen: Screen, line: nat, scanEnd: nat): (resume: nat)
    requires line < scanEnd
    ensures line < resume <= scanEnd
  {
    var newest := NewestComposer(screen, line, scanEnd);
    if newest.Some? then newest.value else scanEnd
  }

  method ResumeAfterAmbiguousCorridor(screen: Screen, ambiguousLine: nat, scanEnd: nat) returns (resume: nat)
    requires ambiguousLine < scanEnd <= |screen.rows|
    ensures resume == ResumeLine(screen, ambiguousLine, scanEnd)
    ensures resume < scanEnd ==> screen.composerRule(resume).Some?
    ensures forall k :: resume < k < scanEnd ==> screen.composerRule(k).None?
    ensures resume == scanEnd ==> forall k :: ambiguousLine < k < scanEnd ==> screen.composerRule(k).None?
  {
    var index := scanEnd - 1;
    while index > ambiguousLine
      invariant ambiguousLine <= index < scanEnd
      invariant forall k :: index < k < scanEnd ==> screen.composerRule(k).None?
      invariant NewestComposer(screen, ambiguousLine, index + 1) == NewestComposer(screen, ambiguousLine, scanEnd)
    {
      if screen.composerRule(index).Some? {
        return index;
      }
      index := index - 1;
    }
    return scanEnd;
  }

  // ---- Candidates -----------------------------------------------------------------------------

  datatype LineRange = LineRange(startLine: nat, endLine: nat)

  datatype Block = Block(
    rawStart: nat, rawEndExclusive: nat, status: Status, commandRange: LineRange, outputRange: LineRange,
    command: Text, output: Text, commandTruncated: bool, outputTruncated: bool, fingerprint: Text)

  datatype Parsed = Parsed(block: Option<Block>, resumeLine: nat)

  /** The first result row below the header, before `end`; `None` if there is none. */
  ghost predicate IsFirstDelimiter(screen: Screen, start: nat, delimiterLine: Option<nat>, end: nat) {
    match delimiterLine
    case None => forall k :: start < k < end ==> !screen.delimiter(k)
    case Some(d) => start < d < end && screen.delimiter(d) && forall k :: start < k < d ==> !screen.delimiter(k)
  }

  /** A row a call may own: not oversized, and neither approval nor prompt. */
  predicate MayBeOwned(screen: Screen, limits: Limits, i: nat)
    requires i < |screen.rows|
  {
    && |screen.rows[i]| <= MAX_CANDIDATE_ROW_CHARS
    && BoundaryAt(screen, limits, i) != Some(Approval) && BoundaryAt(screen, limits, i) != Some(UserPrompt)
  }

  /** The rows of a candidate up to `i`: each may be owned, or is the first result row. */
  ghost predicate RowsAreOwned(screen: Screen, limits: Limits, start: nat, delimiterLine: Option<nat>, i: nat)
    requires i <= |screen.rows|
  {
    forall k :: start < k < i ==>
          |screen.rows[k]| <= MAX_CANDIDATE_ROW_CHARS && (delimiterLine == Some(k) || MayBeOwned(screen, limits, k))
  }

  ghost predicate AllBlank(screen: Screen, from: nat, to: nat) {
    forall k :: from <= k < to ==> screen.blank(k)
  }

  /** A boundary row closes the call: only blank rows stand between its end and that row. */
  ghost predicate ClosedBy(screen: Screen, limits: Limits, end: nat, boundaryRow: nat) {
    end <= boundaryRow < |screen.rows| && AllBlank(screen, end, boundaryRow)
        && BoundaryAt(screen, limits, boundaryRow).Some?
  }

  /** What a detected call is. */
  ghost predicate IsBashBlock(screen: Screen, limits: Limits, block: Block) {
    var start, end, result := block.rawStart, block.rawEndExclusive, block.outputRange.startLine;
    && start < end <= |screen.rows| && end - start <= limits.maxBlockLines
    && screen.header(start).Some?
    && block.commandRange == LineRange(start, result) && block.outputRange == LineRange(result, end)
    && start < result <= end
    && IsFirstDelimiter(screen, start, if result < end then Some(result) else None, end)
    && RowsAreOwned(screen, limits, start, if result < end then Some(result) else None, end)
    && (block.status == Completed ==> result < end && exists boundaryRow: nat ::
          ClosedBy(screen, limits, end, boundaryRow))
    && (block.status == Active ==>
          || screen.header(start).value.status == Active
          || (end == |screen.rows| && result < end && screen.liveRunning(result)))
    && HasPreviews(screen, limits, block)
  }

  /** The texts of a call, cut to their limits, and the fingerprint of the whole texts. */
  predicate HasPreviews(screen: Screen, limits: Limits, block: Block) {
    var start, end, result := block.rawStart, block.rawEndExclusive, block.outputRange.startLine;
    screen.header(start).Some? &&
    var command := screen.commandText(start, result, screen.header(start).value.firstText);
    var output := if result < end then screen.outputText(result, end) else [];
    && command != []
    && (block.command, block.commandTruncated) == TruncateUtf16(command, limits.maxCommandChars)
    && (block.output, block.outputTruncated) == TruncateUtf16(output, limits.maxOutputChars)
    && block.fingerprint == screen.fingerprint(command, output, block.status)
  }

  // ---- The scan below a header ----------------------------------------------------------------

  /** The scan's findings before row `i`. */
  datatype Findings = Findings(delimiterLine: Option<nat>, pendingBlankStart: Option<nat>, softWrapped: bool,
      ambiguous: bool)

  ghost predicate ScannedTo(screen: Screen, limits: Limits, start: nat, i: nat, found: Findings) {
    && start < i <= |screen.rows|
    && IsFirstDelimiter(screen, start, found.delimiterLine, i)
    && RowsAreOwned(screen, limits, start, found.delimiterLine, i)
    && (found.pendingBlankStart.Some? ==>
          found.delimiterLine.Some? && found.delimiterLine.value < found.pendingBlankStart.value < i
              && AllBlank(screen, found.pendingBlankStart.value, i))
  }

  /** The first result row is taken whatever it looks like. */
  lemma DelimiterTaken(screen: Screen, limits: Limits, start: nat, i: nat, found: Findings)
    requires ScannedTo(screen, limits, start, i, found) && i < |screen.rows| && found.delimiterLine.None?
    requires screen.delimiter(i) && |screen.rows[i]| <= MAX_CANDIDATE_ROW_CHARS
    ensures ScannedTo(screen, limits, start, i + 1, found.(delimiterLine := Some(i), pendingBlankStart := None))
  {
  }

  /** Blank rows behind the result are remembered; any other row forgets them. */
  function BlanksAfter(screen: Screen, i: nat, found: Findings): Option<nat> {
    if found.delimiterLine.None? || !screen.blank(i) then None
    else if found.pendingBlankStart.None? then Some(i)
    else found.pendingBlankStart
  }

  lemma RowTaken(screen: Screen, limits: Limits, start: nat, i: nat, found: Findings, next: Findings)
    requires ScannedTo(screen, limits, start, i, found) && i < |screen.rows| && MayBeOwned(screen, limits, i)
    requires found.delimiterLine.Some? || !screen.delimiter(i)
    requires next.delimiterLine == found.delimiterLine
    requires next.pendingBlankStart.None? || next.pendingBlankStart == BlanksAfter(screen, i, found)
    ensures ScannedTo(screen, limits, start, i + 1, next)
  {
    hide BoundaryAt;
  }

  /** Whether a status row that was not seen to repaint has come up behind the result. */
  predicate IsAmbiguousWith(screen: Screen, limits: Limits, i: nat, found: Findings) {
    found.ambiguous || (screen.activity(i) && !IsProvenActivity(screen, limits, i) && found.delimiterLine.Some?)
  }

  predicate TakesResult(screen: Screen, i: nat, found: Findings) {
    found.delimiterLine.None? && screen.delimiter(i)
  }

  /** What the scan does at any row. */
  function DecisionAt(screen: Screen, limits: Limits, i: nat, found: Findings): Decision
    requires 0 < i < |screen.rows|
  {
    if |screen.rows[i]| > MAX_CANDIDATE_ROW_CHARS then Reject(false)
    else if TakesResult(screen, i, found) then GoOn
    else
      match BoundaryAt(screen, limits, i)
      case None => GoOn
      case Some(boundary) =>
        DecideAt(screen, limits, i, boundary, found.delimiterLine.Some?, IsAmbiguousWith(screen, limits, i, found),
            found.softWrapped)
  }

  /** The findings behind a row that the scan went on from. */
  function FindingsBehind(screen: Screen, limits: Limits, i: nat, found: Findings): Findings {
    if TakesResult(screen, i, found) then found.(delimiterLine := Some(i), pendingBlankStart := None)
    else
      var noted := found.(ambiguous := IsAmbiguousWith(screen, limits, i, found));
      if BoundaryAt(screen, limits, i).Some? then noted.(pendingBlankStart := None, softWrapped := true)
      else noted.(pendingBlankStart := BlanksAfter(screen, i, found))
  }

  const NOTHING_FOUND := Findings(None, None, false, false)

  function FindingsAt(screen: Screen, limits: Limits, start: nat, i: nat): Findings
    requires start < i
    decreases i
  {
    if i == start + 1 then NOTHING_FOUND else FindingsBehind(screen, limits, i - 1,
        FindingsAt(screen, limits, start, i - 1))
  }

  function DecisionFor(screen: Screen, limits: Limits, start: nat, i: nat): Decision
    requires start < i < |screen.rows|
  {
    DecisionAt(screen, limits, i, FindingsAt(screen, limits, start, i))
  }

  /** One row more than a call may have is looked at, for its boundary. */
  function ScanEnd(screen: Screen, limits: Limits, start: nat): (end: nat)
    requires start < |screen.rows|
    ensures start < end <= |screen.rows| && end <= start + limits.maxBlockLines + 1
    ensures end == |screen.rows| || end == start + limits.maxBlockLines + 1
  {
    if |screen.rows| < start + limits.maxBlockLines + 1 then |screen.rows| else start + limits.maxBlockLines + 1
  }

  /** The first row from `i` on that the scan does not go on from, or its end. */
  function FirstStop(screen: Screen, limits: Limits, start: nat, i: nat): (stop: nat)
    requires start < |screen.rows| && start < i <= ScanEnd(screen, limits, start)
    ensures i <= stop <= ScanEnd(screen, limits, start)
    ensures forall k :: i <= k < stop ==> DecisionFor(screen, limits, start, k).GoOn?
    ensures stop < ScanEnd(screen, limits, start) ==> !DecisionFor(screen, limits, start, stop).GoOn?
    decreases ScanEnd(screen, limits, start) - i
  {
    if i == ScanEnd(screen, limits, start) || !DecisionFor(screen, limits, start, i).GoOn? then i
    else FirstStop(screen, limits, start, i + 1)
  }

  function StopOf(screen: Screen, limits: Limits, start: nat): (stop: nat)
    requires start < |screen.rows|
    ensures start < stop <= ScanEnd(screen, limits, start)
  {
    FirstStop(screen, limits, start, start + 1)
  }

  /** A call that ends at a boundary leaves the blank rows in front of it. */
  function EndBefore(found: Findings, row: nat): nat {
    if found.pendingBlankStart.Some? then found.pendingBlankStart.value else row
  }

  /** Where a candidate ends, if it does: its end, and whether by a boundary that completes it. */
  datatype Ending = Ended(end: nat, completion: bool) | Unclosed | Rejected(resumeLine: nat)

  /** The candidate's end by the first row that stops the scan. */
  function EndingOf(screen: Screen, limits: Limits, start: nat): Ending
    requires start < |screen.rows|
  {
    var stop, scanEnd := StopOf(screen, limits, start), ScanEnd(screen, limits, start);
    if stop == scanEnd then
      if start + limits.maxBlockLines < |screen.rows| then Rejected(0) else Unclosed
    else
      match DecisionFor(screen, limits, start, stop)
      case Reject(quarantine) => Rejected(if quarantine then ResumeLine(screen, stop, scanEnd) else 0)
      case End(completion) => Ended(EndBefore(FindingsAt(screen, limits, start, stop), stop), completion)
      case GoOn => Unclosed
  }

  /** All rows between the header and `i` let the scan go on. */
  ghost predicate GoesOnTo(screen: Screen, limits: Limits, start: nat, i: nat)
    requires i <= |screen.rows|
  {
    forall k :: start < k < i ==> DecisionFor(screen, limits, start, k).GoOn?
  }

  predicate IsUnprovenActivity(screen: Screen, limits: Limits, k: nat) {
    screen.activity(k) && !IsProvenActivity(screen, limits, k)
  }

  /** What the findings say of the rows that the scan went on from: where the result is, and
      which kinds of row have come up behind it. */
  lemma {:induction false} FindingsMeaning(screen: Screen, limits: Limits, start: nat, i: nat)
    requires start < i <= |screen.rows| && GoesOnTo(screen, limits, start, i)
    ensures var found := FindingsAt(screen, limits, start, i);
            && IsFirstDelimiter(screen, start, found.delimiterLine, i)
            && (found.ambiguous <==>
                  (found.delimiterLine.Some?
                   && exists k :: found.delimiterLine.value < k < i && IsUnprovenActivity(screen, limits, k)))
            && (found.softWrapped <==>
                  (found.delimiterLine.Some?
                   && exists k :: found.delimiterLine.value < k < i && BoundaryAt(screen, limits, k).Some?))
    decreases i
  {
    hide DecideAt, BoundaryAt, IsProvenActivity;
    if i > start + 1 {
      FindingsMeaning(screen, limits, start, i - 1);
      var before, found := FindingsAt(screen, limits, start, i - 1), FindingsAt(screen, limits, start, i);
      assert DecisionFor(screen, limits, start, i - 1).GoOn?;
      var boundary := BoundaryAt(screen, limits, i - 1);
      if boundary.Some? {
        HardBoundariesStop(screen, limits, i - 1, boundary.value, before.delimiterLine.Some?,
                           IsAmbiguousWith(screen, limits, i - 1, before), before.softWrapped);
      }
      if found.delimiterLine.Some? && found.delimiterLine == before.delimiterLine {
        MoreBehind(screen, limits, found.delimiterLine.value, i - 1);
      }
    }
  }

  /** A blank row behind the result, and no boundary. */
  predicate IsSpare(screen: Screen, limits: Limits, result: Option<nat>, k: nat) {
    result.Some? && k > result.value && screen.blank(k) && BoundaryAt(screen, limits, k).None?
  }

  /** The end that a boundary row gives a call: behind its last row that is not spare. */
  lemma {:induction false} EndMeaning(screen: Screen, limits: Limits, start: nat, i: nat)
    requires start < i <= |screen.rows| && GoesOnTo(screen, limits, start, i)
    ensures var found := FindingsAt(screen, limits, start, i);
            var end := EndBefore(found, i);
            && start < end <= i
            && (forall k :: end <= k < i ==> IsSpare(screen, limits, found.delimiterLine, k))
            && (end > start + 1 ==> !IsSpare(screen, limits, found.delimiterLine, end - 1))
    decreases i
  {
    hide DecideAt, BoundaryAt, IsAmbiguousWith;
    if i > start + 1 {
      EndMeaning(screen, limits, start, i - 1);
      FindingsMeaning(screen, limits, start, i - 1);
      assert DecisionFor(screen, limits, start, i - 1).GoOn?;
    }
  }

  /** One row more behind a result. */
  lemma MoreBehind(screen: Screen, limits: Limits, d: nat, i: nat)
    requires d < i
    ensures (exists k :: d < k < i + 1 && IsUnprovenActivity(screen, limits, k)) <==>
            ((exists k :: d < k < i && IsUnprovenActivity(screen, limits, k)) || IsUnprovenActivity(screen, limits, i))
    ensures (exists k :: d < k < i + 1 && BoundaryAt(screen, limits, k).Some?) <==>
            ((exists k :: d < k < i && BoundaryAt(screen, limits, k).Some?) || BoundaryAt(screen, limits, i).Some?)
  {
    hide BoundaryAt, IsUnprovenActivity;
  }

  /** A candidate is closed exactly by the first boundary row that ends it, rejected exactly by
      the first row that rejects it or by the length limit, and open where no row stops it
      before the capture ends. */
  lemma EndingMeaning(screen: Screen, limits: Limits, start: nat)
    requires start < |screen.rows|
    ensures forall end: nat, completion :: EndingOf(screen, limits, start) == Ended(end, completion) <==>
              exists row: nat ::
                && start < row < |screen.rows| && row <= start + limits.maxBlockLines
                    && GoesOnTo(screen, limits, start, row)
                && DecisionFor(screen, limits, start, row) == End(completion)
                && end == EndBefore(FindingsAt(screen, limits, start, row), row)
    ensures EndingOf(screen, limits, start).Rejected? <==>
              || (start + limits.maxBlockLines < |screen.rows|
                  && GoesOnTo(screen, limits, start, start + limits.maxBlockLines + 1))
              || exists row: nat ::
                   && start < row < |screen.rows| && row <= start + limits.maxBlockLines
                       && GoesOnTo(screen, limits, start, row)
                   && DecisionFor(screen, limits, start, row).Reject?
    ensures EndingOf(screen, limits, start).Unclosed? <==>
              |screen.rows| <= start + limits.maxBlockLines && GoesOnTo(screen, limits, start, |screen.rows|)
  {
    hide DecisionFor, EndBefore, ResumeLine;
    var stop := StopOf(screen, limits, start);
    assert GoesOnTo(screen, limits, start, stop);
    forall row: nat | start < row < ScanEnd(screen, limits, start) && GoesOnTo(screen, limits, start, row)
        && !DecisionFor(screen, limits, start, row).GoOn?
      ensures row == stop
    {
    }
  }

  /** A closed candidate: findings up to its end, and the boundary row behind. */
  ghost predicate IsClosedAt(screen: Screen, limits: Limits, start: nat, end: nat, delimiterLine: Option<nat>,
      completion: bool) {
    && start < end <= |screen.rows| && end <= start + limits.maxBlockLines
    && IsFirstDelimiter(screen, start, delimiterLine, end)
    && RowsAreOwned(screen, limits, start, delimiterLine, end)
    && (!completion ==> delimiterLine.Some?)
    && exists boundaryRow: nat :: ClosedBy(screen, limits, end, boundaryRow)
  }

  lemma ClosedAtBoundary(screen: Screen, limits: Limits, start: nat, i: nat, found: Findings, completion: bool)
    requires ScannedTo(screen, limits, start, i, found) && i < |screen.rows| && i <= start + limits.maxBlockLines
    requires BoundaryAt(screen, limits, i).Some? && (!completion ==> found.delimiterLine.Some?)
    ensures IsClosedAt(screen, limits, start, EndBefore(found, i), found.delimiterLine, completion)
  {
    var end := if found.pendingBlankStart.Some? then found.pendingBlankStart.value else i;
    assert ClosedBy(screen, limits, end, i);
  }

  /** One row of the scan. */
  lemma RowStep(screen: Screen, limits: Limits, start: nat, i: nat)
    requires start < |screen.rows| && start < i < ScanEnd(screen, limits, start)
    ensures var found := FindingsAt(screen, limits, start, i);
            var decision := DecisionAt(screen, limits, i, found);
            && DecisionFor(screen, limits, start, i) == decision
            && FindingsAt(screen, limits, start, i + 1) == FindingsBehind(screen, limits, i, found)
            && FirstStop(screen, limits, start, i) ==
               if decision.GoOn? then FirstStop(screen, limits, start, i + 1) else i
  {
    hide DecisionAt, FindingsBehind;
  }

  method ScanCandidate(screen: Screen, limits: Limits, start: nat) returns (ending: Ending, found: Findings)
    requires start < |screen.rows|
    ensures ending == EndingOf(screen, limits, start)
            && found == FindingsAt(screen, limits, start, StopOf(screen, limits, start))
    ensures ending.Ended? ==> IsClosedAt(screen, limits, start, ending.end, found.delimiterLine, ending.completion)
    ensures ending.Unclosed? ==>
              |screen.rows| <= start + limits.maxBlockLines && ScannedTo(screen, limits, start, |screen.rows|, found)
    ensures ending.Rejected? ==> ending.resumeLine <= |screen.rows|
  {
    hide ScannedTo, IsClosedAt, DecideAt, BoundaryAt, MayBeOwned, IsAmbiguousWith;
    found := NOTHING_FOUND;
    var scanEnd := ScanEnd(screen, limits, start);
    var i := start + 1;
    ScanBegins(screen, limits, start, found);
    while i < scanEnd
      invariant start < i <= scanEnd
      invariant ScannedTo(screen, limits, start, i, found)
      invariant found == FindingsAt(screen, limits, start, i)
      invariant StopOf(screen, limits, start) == FirstStop(screen, limits, start, i)
      decreases scanEnd - i
    {
      RowStep(screen, limits, start, i);
      hide FindingsAt, FirstStop, DecisionFor;
      if |screen.rows[i]| > MAX_CANDIDATE_ROW_CHARS {
        return Rejected(0), found;
      }
      if found.delimiterLine.None? && screen.delimiter(i) {
        DelimiterTaken(screen, limits, start, i, found);
        found := found.(delimiterLine := Some(i), pendingBlankStart := None);
        i := i + 1;
        continue;
      }
      var boundary := BoundaryAt(screen, limits, i);
      var ambiguous := IsAmbiguousWith(screen, limits, i, found);
      if boundary.Some? {
        var decision := DecideAt(screen, limits, i, boundary.value, found.delimiterLine.Some?, ambiguous,
            found.softWrapped);
        HardBoundariesStop(screen, limits, i, boundary.value, found.delimiterLine.Some?, ambiguous, found.softWrapped);
        if decision.Reject? {
          var resumeLine: nat := 0;
          if decision.quarantine {
            resumeLine := ResumeAfterAmbiguousCorridor(screen, i, scanEnd);
          }
          return Rejected(resumeLine), found;
        }
        if decision.End? {
          ClosedAtBoundary(screen, limits, start, i, found, decision.completion);
          return Ended(EndBefore(found, i), decision.completion), found;
        }
        BoundaryMayBeOwned(screen, limits, i);
        RowTaken(screen, limits, start, i, found,
            found.(ambiguous := ambiguous, pendingBlankStart := None, softWrapped := true));
        found := found.(ambiguous := ambiguous, pendingBlankStart := None, softWrapped := true);
      } else {
        BoundaryMayBeOwned(screen, limits, i);
        RowTaken(screen, limits, start, i, found,
            found.(ambiguous := ambiguous, pendingBlankStart := BlanksAfter(screen, i, found)));
        found := found.(ambiguous := ambiguous, pendingBlankStart := BlanksAfter(screen, i, found));
      }
      i := i + 1;
    }
    if start + limits.maxBlockLines < |screen.rows| {
      return Rejected(0), found;
    }
    return Unclosed, found;
  }

  lemma ScanBegins(screen: Screen, limits: Limits, start: nat, found: Findings)
    requires start < |screen.rows| && found.delimiterLine.None? && found.pendingBlankStart.None?
    ensures ScannedTo(screen, limits, start, start + 1, found)
  {
  }

  lemma BoundaryMayBeOwned(screen: Screen, limits: Limits, i: nat)
    requires i < |screen.rows| && |screen.rows[i]| <= MAX_CANDIDATE_ROW_CHARS
    requires BoundaryAt(screen, limits, i) != Some(Approval) && BoundaryAt(screen, limits, i) != Some(UserPrompt)
    ensures MayBeOwned(screen, limits, i)
  {
  }

  // ---- The candidate as a block -----------------------------------------------------------------

  /** What a candidate's rows and state say it is: `None` where it must stay raw. */
  function StatusOf(screen: Screen, header: Header, found: Findings, ending: Ending): Option<Status> {
    match ending
    case Rejected(_) => None
    case Ended(_, completion) =>
      if header.status == Completed then (if found.delimiterLine.None? then None else Some(Completed))
      else if found.delimiterLine.Some? && completion then Some(Completed)
      else Some(Active)
    case Unclosed =>
      if header.status == Completed then
        if found.delimiterLine.Some? && !found.ambiguous && screen.liveRunning(found.delimiterLine.value)
            then Some(Active) else None
      else if found.ambiguous then None
      else Some(Active)
  }

  /** The status of the call at a header row, if its rows are one. */
  function CallStatus(screen: Screen, limits: Limits, start: nat, header: Header): Option<Status>
    requires start < |screen.rows|
  {
    StatusOf(screen, header, FindingsAt(screen, limits, start, StopOf(screen, limits, start)),
        EndingOf(screen, limits, start))
  }

  function CallEnd(screen: Screen, limits: Limits, start: nat): nat
    requires start < |screen.rows|
  {
    var ending := EndingOf(screen, limits, start);
    if ending.Ended? then ending.end else |screen.rows|
  }

  function CallResult(screen: Screen, limits: Limits, start: nat): nat
    requires start < |screen.rows|
  {
    var found := FindingsAt(screen, limits, start, StopOf(screen, limits, start));
    if found.delimiterLine.Some? then found.delimiterLine.value else CallEnd(screen, limits, start)
  }

  /** A header row starts a call when its rows give it a status and its command is not empty. */
  predicate IsCall(screen: Screen, limits: Limits, start: nat, header: Header)
    requires start < |screen.rows|
  {
    && CallStatus(screen, limits, start, header).Some?
    && screen.commandText(start, CallResult(screen, limits, start), header.firstText) != []
  }

  /** Where the scan goes on behind a rejected candidate, if not at the next row. */
  function QuarantineEnd(screen: Screen, limits: Limits, start: nat): nat
    requires start < |screen.rows|
  {
    var ending := EndingOf(screen, limits, start);
    if ending.Rejected? then ending.resumeLine else 0
  }

  method ParseCandidate(screen: Screen, limits: Limits, start: nat, header: Header) returns (parsed: Parsed)
    requires start < |screen.rows| && screen.header(start) == Some(header)
    ensures parsed.block.Some? <==> IsCall(screen, limits, start, header)
    ensures parsed.block.Some? ==>
              var block := parsed.block.value;
              && block.rawStart == start && block.rawEndExclusive == CallEnd(screen, limits, start)
              && block.outputRange.startLine == CallResult(screen, limits, start)
              && Some(block.status) == CallStatus(screen, limits, start, header) && IsBashBlock(screen, limits, block)
    ensures parsed.block.None? ==> parsed.resumeLine == QuarantineEnd(screen, limits, start) <= |screen.rows|
  {
    hide ScannedTo, IsClosedAt, IsBashBlock, TruncateUtf16, EndingOf, FindingsAt;
    var ending, found := ScanCandidate(screen, limits, start);
    var status := StatusOf(screen, header, found, ending);
    if status.None? {
      return Parsed(None, if ending.Rejected? then ending.resumeLine else 0);
    }
    var end := if ending.Ended? then ending.end else |screen.rows|;
    DelimiterIsInside(screen, limits, start, header, found, ending);
    var resultLine := if found.delimiterLine.Some? then found.delimiterLine.value else end;
    var fullCommand := screen.commandText(start, resultLine, header.firstText);
    if fullCommand == [] {
      return Parsed(None, 0);
    }
    var fullOutput := if found.delimiterLine.Some? then screen.outputText(resultLine, end) else [];
    var command, output := TruncateUtf16(fullCommand, limits.maxCommandChars),
        TruncateUtf16(fullOutput, limits.maxOutputChars);
    var block := Block(start, end, status.value, LineRange(start, resultLine), LineRange(resultLine, end),
                       command.0, output.0, command.1, output.1,
                           screen.fingerprint(fullCommand, fullOutput, status.value));
    BlockIsBash(screen, limits, start, header, found, ending, block);
    return Parsed(Some(block), 0);
  }

  lemma DelimiterIsInside(screen: Screen, limits: Limits, start: nat, header: Header, found: Findings, ending: Ending)
    requires StatusOf(screen, header, found, ending).Some?
    requires ending.Ended? ==> IsClosedAt(screen, limits, start, ending.end, found.delimiterLine, ending.completion)
    requires ending.Unclosed? ==> ScannedTo(screen, limits, start, |screen.rows|, found)
    ensures found.delimiterLine.Some? ==> start < found.delimiterLine.value < if ending.Ended? then ending.end
            else |screen.rows|
  {
  }

  lemma BlockIsBash(screen: Screen, limits: Limits, start: nat, header: Header, found: Findings, ending: Ending,
      block: Block)
    requires start < |screen.rows| && screen.header(start) == Some(header)
             && StatusOf(screen, header, found, ending) == Some(block.status)
    requires ending.Ended? ==> IsClosedAt(screen, limits, start, ending.end, found.delimiterLine, ending.completion)
    requires ending.Unclosed? ==>
               |screen.rows| <= start + limits.maxBlockLines && ScannedTo(screen, limits, start, |screen.rows|, found)
    requires block.rawStart == start && block.rawEndExclusive == if ending.Ended? then ending.end else |screen.rows|
    requires block.outputRange == LineRange(if found.delimiterLine.Some? then found.delimiterLine.value
             else block.rawEndExclusive, block.rawEndExclusive)
    requires block.commandRange == LineRange(start, block.outputRange.startLine)
    requires HasPreviews(screen, limits, block)
    ensures IsBashBlock(screen, limits, block)
  {
    hide HasPreviews, RowsAreOwned, ClosedBy;
  }

  // ---- Submitted prompts ------------------------------------------------------------------------

  predicate IsShort(screen: Screen, i: nat)
    requires i < |screen.rows|
  {
    |screen.rows[i]| <= MAX_CANDIDATE_ROW_CHARS
  }

  /** A submitted prompt, whose wrapped rows must be kept. */
  predicate OpensGuard(screen: Screen, i: nat)
    requires i < |screen.rows|
  {
    IsShort(screen, i) && screen.boundary(i) == Some(UserPrompt) && !screen.composerPrompt(i)
  }

  /** The composer, or one of the two strongest identities of a call. */
  predicate ClosesGuard(screen: Screen, i: nat)
    requires i < |screen.rows|
  {
    IsShort(screen, i) && if screen.boundary(i) == Some(UserPrompt) then screen.composerPrompt(i)
        else screen.strongHeader(i)
  }

  /** Some prompt, or the unknown rows before the scan, is open and nothing has closed it since. */
  ghost predicate IsGuarding(screen: Screen, scanStart: nat, i: nat)
    requires scanStart <= i <= |screen.rows|
  {
    || (scanStart > 0 && forall k :: scanStart <= k < i ==> !ClosesGuard(screen, k))
    || exists j :: scanStart <= j < i && IsOpenSince(screen, j, i)
  }

  ghost predicate IsOpenSince(screen: Screen, j: nat, i: nat)
    requires j < i <= |screen.rows|
  {
    OpensGuard(screen, j) && forall k :: j < k < i ==> !ClosesGuard(screen, k)
  }

  /** Rows that may be the rest of a prompt. */
  ghost predicate IsPromptContinuation(screen: Screen, scanStart: nat, i: nat)
    requires scanStart <= i < |screen.rows|
  {
    IsGuarding(screen, scanStart, i) && !ClosesGuard(screen, i) && !OpensGuard(screen, i)
  }

  method ProtectedPromptContinuationRows(screen: Screen, scanStart: nat) returns (protectedRows: set<nat>)
    requires scanStart <= |screen.rows|
    ensures forall i :: i in protectedRows <==>
              scanStart <= i < |screen.rows| && IsPromptContinuation(screen, scanStart, i)
  {
    protectedRows := {};
    var guarding := scanStart > 0;
    for index := scanStart to |screen.rows|
      invariant guarding <==> IsGuarding(screen, scanStart, index)
      invariant forall i :: i in protectedRows <==> scanStart <= i < index && IsPromptContinuation(screen, scanStart, i)
    {
      GuardStep(screen, scanStart, index);
      hide IsGuarding;
      if IsShort(screen, index) {
        if screen.boundary(index) == Some(UserPrompt) {
          guarding := !screen.composerPrompt(index);
          continue;
        }
        if guarding && screen.strongHeader(index) {
          guarding := false;
          continue;
        }
      }
      if guarding {
        protectedRows := protectedRows + {index};
      }
    }
  }

  lemma GuardStep(screen: Screen, scanStart: nat, i: nat)
    requires scanStart <= i < |screen.rows|
    ensures IsGuarding(screen, scanStart, i + 1) <==>
              OpensGuard(screen, i) || (IsGuarding(screen, scanStart, i) && !ClosesGuard(screen, i))
  {
    hide OpensGuard, ClosesGuard;
    if OpensGuard(screen, i) {
      assert IsOpenSince(screen, i, i + 1);
    } else if IsGuarding(screen, scanStart, i) && !ClosesGuard(screen, i) {
      if exists j :: scanStart <= j < i && IsOpenSince(screen, j, i) {
        var j :| scanStart <= j < i && IsOpenSince(screen, j, i);
        assert IsOpenSince(screen, j, i + 1);
      }
    } else if IsGuarding(screen, scanStart, i + 1) {
      GuardWasOpen(screen, scanStart, i);
    }
  }

  lemma GuardWasOpen(screen: Screen, scanStart: nat, i: nat)
    requires scanStart <= i < |screen.rows| && IsGuarding(screen, scanStart, i + 1) && !OpensGuard(screen, i)
    ensures IsGuarding(screen, scanStart, i) && !ClosesGuard(screen, i)
  {
    hide OpensGuard, ClosesGuard;
    var next := i + 1;
    if exists j :: scanStart <= j < next && IsOpenSince(screen, j, next) {
      var j :| scanStart <= j < next && IsOpenSince(screen, j, next);
      assert IsOpenSince(screen, j, i);
    }
  }

  // ---- Detection --------------------------------------------------------------------------------

  /** Calls one after the other, each at a header that is no prompt's continuation. */
  ghost predicate AreDetected(screen: Screen, limits: Limits, scanStart: nat, blocks: seq<Block>) {
    && (forall k :: 0 <= k < |blocks| ==> IsDetected(screen, limits, scanStart, blocks[k]))
    && (forall a, b :: 0 <= a < b < |blocks| ==> blocks[a].rawEndExclusive <= blocks[b].rawStart)
  }

  ghost predicate IsDetected(screen: Screen, limits: Limits, scanStart: nat, block: Block) {
    && IsBashBlock(screen, limits, block)
    && scanStart <= block.rawStart < |screen.rows| && scanStart <= |screen.rows|
    && !IsPromptContinuation(screen, scanStart, block.rawStart)
  }

  lemma OneCallMore(screen: Screen, limits: Limits, scanStart: nat, blocks: seq<Block>, block: Block)
    requires AreDetected(screen, limits, scanStart, blocks) && IsDetected(screen, limits, scanStart, block)
    requires forall k :: 0 <= k < |blocks| ==> blocks[k].rawEndExclusive <= block.rawStart
    ensures AreDetected(screen, limits, scanStart, blocks + [block])
  {
    hide IsDetected;
  }

  /** A row at which a call starts, if the scan comes to it. */
  ghost predicate IsCallRow(screen: Screen, limits: Limits, scanStart: nat, i: nat)
    requires scanStart <= i < |screen.rows|
  {
    && screen.header(i).Some? && !IsPromptContinuation(screen, scanStart, i)
    && IsCall(screen, limits, i, screen.header(i).value)
  }

  /** Where the scan goes from row `i`: behind its call, behind its quarantine, or one row on. */
  ghost function NextRow(screen: Screen, limits: Limits, scanStart: nat, i: nat): (next: nat)
    requires scanStart <= i < |screen.rows|
    ensures next > i
  {
    if screen.header(i).None? || IsPromptContinuation(screen, scanStart, i) then i + 1
    else
      var behind := if IsCall(screen, limits, i, screen.header(i).value) then CallEnd(screen, limits, i)
          else QuarantineEnd(screen, limits, i);
      if behind > i + 1 then behind else i + 1
  }

  /** The scan, standing at `i`, comes to `row`. */
  ghost predicate ComesTo(screen: Screen, limits: Limits, scanStart: nat, i: nat, row: nat)
    requires scanStart <= i
    decreases |screen.rows| - i
  {
    i == row || (i < |screen.rows| && i < row && ComesTo(screen, limits, scanStart,
        NextRow(screen, limits, scanStart, i), row))
  }

  /** The rows at which the scan from `i` on finds calls. */
  ghost function CallRows(screen: Screen, limits: Limits, scanStart: nat, i: nat): seq<nat>
    requires scanStart <= i
    decreases |screen.rows| - i
  {
    if i >= |screen.rows| then []
    else
      var rest := CallRows(screen, limits, scanStart, NextRow(screen, limits, scanStart, i));
      if IsCallRow(screen, limits, scanStart, i) then [i] + rest else rest
  }

  /** Calls are found at exactly the call rows that the scan comes to. */
  lemma {:induction false} CallRowsMeaning(screen: Screen, limits: Limits, scanStart: nat, i: nat, row: nat)
    requires scanStart <= i && i <= row < |screen.rows|
    ensures row in CallRows(screen, limits, scanStart, i) <==>
              ComesTo(screen, limits, scanStart, i, row) && IsCallRow(screen, limits, scanStart, row)
    decreases |screen.rows| - i
  {
    hide IsCallRow;
    var next := NextRow(screen, limits, scanStart, i);
    hide NextRow;
    if next <= row {
      CallRowsMeaning(screen, limits, scanStart, next, row);
    } else {
      RowsAreBehind(screen, limits, scanStart, next, row);
    }
  }

  lemma {:induction false} RowsAreBehind(screen: Screen, limits: Limits, scanStart: nat, i: nat, row: nat)
    requires scanStart <= i && row < i
    ensures row !in CallRows(screen, limits, scanStart, i) && !ComesTo(screen, limits, scanStart, i, row)
    decreases |screen.rows| - i
  {
    hide IsCallRow;
    if i < |screen.rows| {
      var next := NextRow(screen, limits, scanStart, i);
      hide NextRow;
      RowsAreBehind(screen, limits, scanStart, next, row);
    }
  }

  /** A row that the scan does not come to lies in a call or in the quarantine of a header that
      it did come to. */
  lemma {:induction false} PassedOver(screen: Screen, limits: Limits, scanStart: nat, i: nat, row: nat)
    returns (over: nat)
    requires scanStart <= i <= row < |screen.rows| && !ComesTo(screen, limits, scanStart, i, row)
    ensures scanStart <= over && i <= over < row && ComesTo(screen, limits, scanStart, i, over)
    ensures screen.header(over).Some? && !IsPromptContinuation(screen, scanStart, over)
    ensures row < if IsCall(screen, limits, over, screen.header(over).value) then CallEnd(screen, limits, over)
            else QuarantineEnd(screen, limits, over)
    decreases |screen.rows| - i
  {
    hide IsCall, CallEnd, QuarantineEnd, IsPromptContinuation;
    var next := NextRow(screen, limits, scanStart, i);
    if next <= row {
      over := PassedOver(screen, limits, scanStart, next, row);
    } else {
      over := i;
    }
  }

  function Starts(blocks: seq<Block>): (starts: seq<nat>)
    ensures |starts| == |blocks|
  {
    seq(|blocks|, k requires 0 <= k < |blocks| => blocks[k].rawStart)
  }

  lemma StartsWithOneMore(blocks: seq<Block>, block: Block)
    ensures Starts(blocks + [block]) == Starts(blocks) + [block.rawStart]
  {
  }

  /** The newest `maxBlocks` of a list. */
  function Newest(blocks: seq<Block>, maxBlocks: nat): seq<Block> {
    if |blocks| <= maxBlocks then blocks else blocks[|blocks| - maxBlocks..]
  }

  /** The block has the end and the status of the call at its row. */
  ghost predicate IsItsCall(screen: Screen, limits: Limits, block: Block) {
    && block.rawStart < |screen.rows| && screen.header(block.rawStart).Some?
    && block.rawEndExclusive == CallEnd(screen, limits, block.rawStart)
    && Some(block.status) == CallStatus(screen, limits, block.rawStart, screen.header(block.rawStart).value)
  }

  /** What a detection returns: the newest of the calls at exactly the call rows it comes to. */
  ghost predicate IsDetection(screen: Screen, limits: Limits, scanStart: nat, maxBlocks: nat, blocks: seq<Block>) {
    exists all: seq<Block> ::
      && AreDetected(screen, limits, scanStart, all)
      && Starts(all) == CallRows(screen, limits, scanStart, scanStart)
      && (forall k :: 0 <= k < |all| ==> IsItsCall(screen, limits, all[k]))
      && blocks == Newest(all, maxBlocks)
  }

  /** The scan over all rows: it ends, because it never resumes at or before the row it was at. */
  method DetectClaudeBashBlocks(screen: Screen, limits: Limits, scanStart: nat, maxBlocks: nat)
    returns (blocks: seq<Block>)
    requires scanStart <= |screen.rows| && maxBlocks > 0
    ensures IsDetection(screen, limits, scanStart, maxBlocks, blocks)
    ensures AreDetected(screen, limits, scanStart, blocks)
  {
    hide IsBashBlock, IsPromptContinuation, IsCall, CallEnd, CallResult, CallStatus, QuarantineEnd;
    blocks := [];
    ghost var all: seq<Block> := [];
    var promptContinuationRows := ProtectedPromptContinuationRows(screen, scanStart);
    var i := scanStart;
    while i < |screen.rows|
      invariant scanStart <= i <= |screen.rows|
      invariant AreDetected(screen, limits, scanStart, all) && blocks == Newest(all, maxBlocks)
      invariant forall k :: 0 <= k < |all| ==> all[k].rawEndExclusive <= i
      invariant forall k :: 0 <= k < |all| ==> IsItsCall(screen, limits, all[k])
      invariant Starts(all) + CallRows(screen, limits, scanStart, i) == CallRows(screen, limits, scanStart, scanStart)
      decreases |screen.rows| - i
    {
      hide AreDetected;
      var rest := CallRows(screen, limits, scanStart, NextRow(screen, limits, scanStart, i));
      assert CallRows(screen, limits, scanStart, i) == if IsCallRow(screen, limits, scanStart, i) then [i] + rest
          else rest;
      hide CallRows;
      var header := screen.header(i);
      if i in promptContinuationRows || header.None? {
        i := i + 1;
        continue;
      }
      var parsed := ParseCandidate(screen, limits, i, header.value);
      if parsed.block.None? {
        i := if parsed.resumeLine > i + 1 then parsed.resumeLine else i + 1;
        continue;
      }
      var block := parsed.block.value;
      BlockBounds(screen, limits, block);
      OneCallMore(screen, limits, scanStart, all, block);
      NewestWithOneMore(all, block, maxBlocks);
      StartsWithOneMore(all, block);
      ConcatAssociates(Starts(all), [i], rest);
      if |blocks| == maxBlocks {
        blocks := blocks[1..];
      }
      blocks, all := blocks + [block], all + [block];
      i := block.rawEndExclusive;
    }
    NewestAreDetected(screen, limits, scanStart, all, maxBlocks);
  }

  lemma NewestAreDetected(screen: Screen, limits: Limits, scanStart: nat, all: seq<Block>, maxBlocks: nat)
    requires AreDetected(screen, limits, scanStart, all)
    ensures AreDetected(screen, limits, scanStart, Newest(all, maxBlocks))
  {
    hide IsDetected;
  }

  lemma BlockBounds(screen: Screen, limits: Limits, block: Block)
    requires IsBashBlock(screen, limits, block)
    ensures block.rawStart < block.rawEndExclusive <= |screen.rows|
  {
  }

  lemma NewestWithOneMore(all: seq<Block>, block: Block, maxBlocks: nat)
    requires maxBlocks > 0
    ensures var newest := Newest(all, maxBlocks);
            |newest| <= maxBlocks && Newest(all + [block], maxBlocks) ==
                (if |newest| == maxBlocks then newest[1..] else newest) + [block]
  {
  }

  /** Every row of a call behind its header may be owned or is its first result row, and a
      completed call has a result inside and a boundary row behind it, before the end of the
      capture. */
  lemma HiddenRowsAreSafe(screen: Screen, limits: Limits, scanStart: nat, blocks: seq<Block>, k: nat, row: nat)
    requires AreDetected(screen, limits, scanStart, blocks) && k < |blocks|
    requires blocks[k].rawStart < row < blocks[k].rawEndExclusive
    ensures row < |screen.rows|
    ensures row == blocks[k].outputRange.startLine || MayBeOwned(screen, limits, row)
    ensures blocks[k].rawEndExclusive - blocks[k].rawStart <= limits.maxBlockLines
    ensures blocks[k].status == Completed ==>
              && blocks[k].rawStart < blocks[k].outputRange.startLine < blocks[k].rawEndExclusive
              && screen.delimiter(blocks[k].outputRange.startLine)
              && exists boundaryRow: nat ::
                    boundaryRow < |screen.rows| && ClosedBy(screen, limits, blocks[k].rawEndExclusive, boundaryRow)
  {
    assert IsDetected(screen, limits, scanStart, blocks[k]);
    hide MayBeOwned, HasPreviews;
    if blocks[k].status == Completed {
      var boundaryRow: nat :| ClosedBy(screen, limits, blocks[k].rawEndExclusive, boundaryRow);
    }
  }

  predicate IsHard(screen: Screen, row: nat) {
    screen.boundary(row) == Some(Approval) || screen.boundary(row) == Some(UserPrompt)
  }

  /** The row tests are apart: no approval or prompt row looks like a header, a result or a
      status row. */
  ghost predicate HardRowsAreApart(screen: Screen) {
    forall row: nat :: IsHard(screen, row) ==>
          screen.header(row).None? && !screen.delimiter(row) && !screen.activity(row)
  }

  /** Then no row of a call at all is an approval or a prompt. */
  lemma NoHardRowIsHidden(screen: Screen, limits: Limits, scanStart: nat, blocks: seq<Block>, k: nat, row: nat)
    requires AreDetected(screen, limits, scanStart, blocks) && k < |blocks| && HardRowsAreApart(screen)
    requires blocks[k].rawStart <= row < blocks[k].rawEndExclusive
    ensures screen.boundary(row) != Some(Approval) && screen.boundary(row) != Some(UserPrompt)
  {
    assert IsDetected(screen, limits, scanStart, blocks[k]);
    hide HasPreviews;
    if row > blocks[k].rawStart {
      HiddenRowsAreSafe(screen, limits, scanStart, blocks, k, row);
    }
  }
}
