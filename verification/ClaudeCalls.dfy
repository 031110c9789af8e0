/** When a Claude Bash call is found (core/src/claude-bash.ts), said of the rows alone: which row
    behind a result closes a call, which makes it stay raw, and which counts as output. */
module ClaudeCalls {
  import opened Wrappers
  import opened Text
  import opened ClaudeBash

  // ---- The row above ----------------------------------------------------------------------------

  /** The row above is full: what follows may be the rest of the same line. */
  predicate IsFullAbove(screen: Screen, limits: Limits, i: nat)
    requires i > 0
  {
    limits.paneColumns.Some? && screen.cells(i - 1) == limits.paneColumns.value
  }

  /** The row above may have been full in a pane of another width. */
  predicate IsWideAbove(screen: Screen, limits: Limits, i: nat)
    requires i > 0
  {
    screen.cells(i - 1) >= 64 && !IsFullAbove(screen, limits, i)
  }

  predicate IsNarrowAbove(screen: Screen, limits: Limits, i: nat)
    requires i > 0
  {
    screen.cells(i - 1) < 64 && !IsFullAbove(screen, limits, i)
  }

  // ---- What a row is ----------------------------------------------------------------------------

  predicate IsRepainted(screen: Screen, limits: Limits, i: nat) {
    screen.activity(i) && screen.contextual(i) && i in limits.activityStatusLines
  }

  /** A header, a status row seen to repaint, or a marker that is no status row. */
  predicate IsTopLevelRow(screen: Screen, limits: Limits, i: nat) {
    || screen.header(i).Some?
    || IsRepainted(screen, limits, i)
    || (!screen.activity(i) && screen.boundary(i) == Some(TopLevel))
  }

  predicate IsRowOf(screen: Screen, i: nat, kind: Boundary) {
    screen.header(i).None? && !screen.activity(i) && screen.boundary(i) == Some(kind)
  }

  /** No boundary for a call above it: a plain row, or a status row not seen to repaint. */
  predicate IsPlainRow(screen: Screen, limits: Limits, i: nat) {
    screen.header(i).None? && if screen.activity(i) then !IsRepainted(screen, limits, i) else screen.boundary(i).None?
  }

  predicate IsCertain(screen: Screen, limits: Limits, i: nat) {
    screen.activity(i) ==> IsRepainted(screen, limits, i)
  }

  lemma BoundaryMeaning(screen: Screen, limits: Limits, i: nat)
    ensures BoundaryAt(screen, limits, i).None? <==> IsPlainRow(screen, limits, i)
    ensures BoundaryAt(screen, limits, i) == Some(TopLevel) <==> IsTopLevelRow(screen, limits, i)
    ensures forall kind :: kind != TopLevel ==>
              (BoundaryAt(screen, limits, i) == Some(kind) <==> IsRowOf(screen, i, kind))
  {
  }

  // ---- What a boundary row does -------------------------------------------------------------------

  /** Claude's own marker, and no colour of a shell. */
  predicate IsMarked(screen: Screen, limits: Limits, i: nat) {
    IsRepainted(screen, limits, i) || screen.calibrated(i)
  }

  /** Behind a result, and with no doubt about a status row, a boundary row closes the call below
      a narrow row; below a wide one too, once wrapped output has been passed over. */
  lemma ClosingMeaning(screen: Screen, limits: Limits, i: nat, boundary: Boundary, wrapped: bool)
    requires i > 0
    ensures var decision := DecideAt(screen, limits, i, boundary, true, false, wrapped);
            var clear := IsNarrowAbove(screen, limits, i) || (IsWideAbove(screen, limits, i) && wrapped);
            && (decision == End(true) <==>
                  (clear && ((boundary == TopLevel && (wrapped ==> IsMarked(screen, limits, i)))
                             || (boundary == ComposerRule && screen.composerRule(i).Some?))))
            && (decision == End(false) <==> boundary == UserPrompt && IsNarrowAbove(screen, limits, i))
  {
  }

  /** It is taken for output below a full row, unless it is surely Claude's. */
  lemma OutputMeaning(screen: Screen, limits: Limits, i: nat, boundary: Boundary, wrapped: bool)
    requires i > 0
    ensures DecideAt(screen, limits, i, boundary, true, false, wrapped) == GoOn <==>
            (IsFullAbove(screen, limits, i)
             && ((boundary == TopLevel && !IsMarked(screen, limits, i))
                 || (boundary == ComposerRule && screen.composerRule(i).None?)
                 || (boundary == Dialog && !screen.rounded(i))))
  {
  }

  /** Everything below is put under quarantine where the row could be a prompt, a dialog of
      Claude, or the next call, and it cannot be told apart from output. */
  lemma QuarantineMeaning(screen: Screen, limits: Limits, i: nat, boundary: Boundary, wrapped: bool)
    requires i > 0
    ensures DecideAt(screen, limits, i, boundary, true, false, wrapped) == Reject(true) <==>
            ((boundary == UserPrompt && !IsNarrowAbove(screen, limits, i))
             || (boundary == Dialog && screen.rounded(i))
             || (screen.header(i).Some? && boundary != UserPrompt && boundary != Approval
                 && ((IsWideAbove(screen, limits, i) && !wrapped)
                     || (IsFullAbove(screen, limits, i)
                         && ((boundary == TopLevel && IsMarked(screen, limits, i))
                             || (boundary == ComposerRule && screen.composerRule(i).Some?))))))
  {
  }

  /** Without a result, only a marker or a rule ends a candidate. */
  lemma NoResultMeaning(screen: Screen, limits: Limits, i: nat, boundary: Boundary, wrapped: bool)
    requires i > 0
    ensures DecideAt(screen, limits, i, boundary, false, false, wrapped) ==
            match boundary
            case TopLevel => End(true)
            case ComposerRule => End(true)
            case UserPrompt => Reject(true)
            case Dialog => Reject(false)
            case Approval => Reject(false)
  {
  }

  /** A doubtful status row behind the result leaves nothing but a repainted one to end it. */
  lemma DoubtMeaning(screen: Screen, limits: Limits, i: nat, boundary: Boundary, hasDelimiter: bool, wrapped: bool)
    requires i > 0 && !IsRepainted(screen, limits, i)
    ensures DecideAt(screen, limits, i, boundary, hasDelimiter, true, wrapped) == Reject(false)
  {
  }

  /** With a repainted status row the doubt is gone: it ends the call as it would without. */
  lemma RepaintSettlesDoubt(screen: Screen, limits: Limits, i: nat, wrapped: bool)
    requires i > 0 && IsRepainted(screen, limits, i)
    ensures DecideAt(screen, limits, i, TopLevel, true, true, wrapped) ==
            DecideAt(screen, limits, i, TopLevel, true, false, wrapped)
  {
  }

  // ---- Quiet candidates ---------------------------------------------------------------------------

  predicate AllShort(screen: Screen, from: nat, to: nat)
    requires to <= |screen.rows|
  {
    forall k :: from <= k < to ==> |screen.rows[k]| <= 65536
  }

  /** From the header to row `e`: plain rows, the first result row at `d`, plain rows without a
      status row. */
  predicate IsQuietTo(screen: Screen, limits: Limits, start: nat, d: nat, e: nat)
    requires e <= |screen.rows|
  {
    && start < d < e && AllShort(screen, start + 1, e)
    && screen.delimiter(d) && (forall k :: start < k < d ==> !screen.delimiter(k))
    && (forall k :: start < k < d ==> IsPlainRow(screen, limits, k))
    && (forall k :: d < k < e ==> IsPlainRow(screen, limits, k) && !screen.activity(k))
  }

  /** From the header to row `e`: plain rows only, none of them a result. */
  predicate IsResultlessTo(screen: Screen, limits: Limits, start: nat, e: nat)
    requires e <= |screen.rows|
  {
    && start < e && AllShort(screen, start + 1, e)
    && (forall k :: start < k < e ==> !screen.delimiter(k) && IsPlainRow(screen, limits, k))
  }

  lemma {:induction false} ResultlessGoesOn(screen: Screen, limits: Limits, start: nat, e: nat)
    requires e <= |screen.rows| && IsResultlessTo(screen, limits, start, e)
    ensures GoesOnTo(screen, limits, start, e) && FindingsAt(screen, limits, start, e) == NOTHING_FOUND
    decreases e
  {
    hide DecideAt;
    if e > start + 1 {
      ResultlessGoesOn(screen, limits, start, e - 1);
    }
  }

  lemma {:induction false} QuietGoesOn(screen: Screen, limits: Limits, start: nat, d: nat, e: nat)
    requires e <= |screen.rows| && IsQuietTo(screen, limits, start, d, e)
    ensures GoesOnTo(screen, limits, start, e)
    ensures var found := FindingsAt(screen, limits, start, e);
            found.delimiterLine == Some(d) && !found.softWrapped && !found.ambiguous
    decreases e
  {
    hide DecideAt;
    if e == d + 1 {
      ResultlessGoesOn(screen, limits, start, d);
    } else {
      QuietGoesOn(screen, limits, start, d, e - 1);
    }
  }

  /** Row `e` stops a scan that has gone on to it, and lies within the limit. */
  lemma StopsAt(screen: Screen, limits: Limits, start: nat, e: nat)
    requires start < e < |screen.rows| && e <= start + limits.maxBlockLines && GoesOnTo(screen, limits, start, e)
    requires !DecisionFor(screen, limits, start, e).GoOn?
    ensures StopOf(screen, limits, start) == e
  {
    hide DecisionFor;
  }

  /** Where a closed call ends: behind its last row that is not blank, its result at the least. */
  predicate EndsBehindText(screen: Screen, d: nat, end: nat, e: nat) {
    && d < end <= e
    && (forall k :: end <= k < e ==> screen.blank(k))
    && (end > d + 1 ==> !screen.blank(end - 1))
  }

  /** The row behind a quiet result that closes the call. */
  predicate Closes(screen: Screen, limits: Limits, e: nat)
    requires e > 0
  {
    && IsNarrowAbove(screen, limits, e)
    && (|| IsTopLevelRow(screen, limits, e)
        || IsRowOf(screen, e, UserPrompt)
        || (IsRowOf(screen, e, ComposerRule) && screen.composerRule(e).Some?))
  }

  /** It is taken for wrapped output. */
  predicate CountsAsOutput(screen: Screen, limits: Limits, e: nat)
    requires e > 0
  {
    && IsFullAbove(screen, limits, e)
    && (|| (IsTopLevelRow(screen, limits, e) && !IsMarked(screen, limits, e))
        || (IsRowOf(screen, e, ComposerRule) && screen.composerRule(e).None?)
        || (IsRowOf(screen, e, Dialog) && !screen.rounded(e)))
  }

  /** The first boundary row behind a quiet result decides: the scan goes on exactly where the
      row counts as output, and ends the call exactly where it closes it. */
  lemma FirstBoundaryDecides(screen: Screen, limits: Limits, start: nat, d: nat, e: nat)
    requires e < |screen.rows| && IsQuietTo(screen, limits, start, d, e) && |screen.rows[e]| <= 65536
    requires !IsPlainRow(screen, limits, e) && IsCertain(screen, limits, e)
    ensures var decision := DecisionFor(screen, limits, start, e);
            && (decision.GoOn? <==> CountsAsOutput(screen, limits, e))
            && (decision.End? <==> Closes(screen, limits, e))
            && (decision == End(false) <==> Closes(screen, limits, e) && IsRowOf(screen, e, UserPrompt))
  {
    QuietGoesOn(screen, limits, start, d, e);
    BoundaryMeaning(screen, limits, e);
    var boundary := BoundaryAt(screen, limits, e).value;
    ClosingMeaning(screen, limits, e, boundary, false);
    OutputMeaning(screen, limits, e, boundary, false);
    hide DecideAt, FindingsAt;
  }

  /** A header with a result and a first boundary row behind it is a call exactly when that row
      closes it and there is a command: finished, unless a prompt closes an active one. */
  lemma ClosedCallIsFound(screen: Screen, limits: Limits, start: nat, d: nat, e: nat, header: Header)
    requires start < |screen.rows| && e < |screen.rows| && e <= start + limits.maxBlockLines
    requires IsQuietTo(screen, limits, start, d, e) && |screen.rows[e]| <= 65536
    requires !IsPlainRow(screen, limits, e) && IsCertain(screen, limits, e) && !CountsAsOutput(screen, limits, e)
    ensures IsCall(screen, limits, start, header) <==>
              Closes(screen, limits, e) && screen.commandText(start, d, header.firstText) != []
    ensures Closes(screen, limits, e) ==>
              && CallStatus(screen, limits, start, header) ==
                 Some(if header.status == Active && IsRowOf(screen, e, UserPrompt) then Active else Completed)
              && CallResult(screen, limits, start) == d
              && EndsBehindText(screen, d, CallEnd(screen, limits, start), e)
  {
    QuietGoesOn(screen, limits, start, d, e);
    FirstBoundaryDecides(screen, limits, start, d, e);
    StopsAt(screen, limits, start, e);
    EndMeaning(screen, limits, start, e);
    QuietIsSpare(screen, limits, start, d, e);
    hide DecisionFor, FindingsAt, GoesOnTo, IsQuietTo, Closes, CountsAsOutput;
  }

  lemma QuietIsSpare(screen: Screen, limits: Limits, start: nat, d: nat, e: nat)
    requires e <= |screen.rows| && IsQuietTo(screen, limits, start, d, e)
    ensures forall k :: d < k < e ==> (IsSpare(screen, limits, Some(d), k) <==> screen.blank(k))
    ensures !IsSpare(screen, limits, Some(d), d)
  {
    forall k | d < k < e ensures BoundaryAt(screen, limits, k).None? {
      BoundaryMeaning(screen, limits, k);
    }
  }

  /** A header without a result before the first boundary row is a call exactly when it is
      active, that row is a marker or a rule, and there is a command. */
  lemma ResultlessCallIsFound(screen: Screen, limits: Limits, start: nat, e: nat, header: Header)
    requires start < |screen.rows| && e < |screen.rows| && e <= start + limits.maxBlockLines
    requires IsResultlessTo(screen, limits, start, e) && |screen.rows[e]| <= 65536
    requires !IsPlainRow(screen, limits, e) && !screen.delimiter(e)
    ensures IsCall(screen, limits, start, header) <==>
              && header.status == Active
              && (IsTopLevelRow(screen, limits, e) || IsRowOf(screen, e, ComposerRule))
              && screen.commandText(start, e, header.firstText) != []
    ensures IsCall(screen, limits, start, header) ==>
              CallStatus(screen, limits, start, header) == Some(Active) && CallEnd(screen, limits, start) == e
  {
    ResultlessGoesOn(screen, limits, start, e);
    BoundaryMeaning(screen, limits, e);
    NoResultMeaning(screen, limits, e, BoundaryAt(screen, limits, e).value, false);
    hide DecideAt;
    StopsAt(screen, limits, start, e);
  }

  /** With no boundary row before the end of the capture, within the limit, only a running call is
      found: an active header, or a finished one whose result row says that it runs. */
  lemma OpenCallIsFound(screen: Screen, limits: Limits, start: nat, d: nat, header: Header)
    requires start < |screen.rows| <= start + limits.maxBlockLines
    requires IsQuietTo(screen, limits, start, d, |screen.rows|)
    ensures IsCall(screen, limits, start, header) <==>
              && (header.status == Active || screen.liveRunning(d))
              && screen.commandText(start, d, header.firstText) != []
    ensures IsCall(screen, limits, start, header) ==>
              && CallStatus(screen, limits, start, header) == Some(Active)
              && CallEnd(screen, limits, start) == |screen.rows| && CallResult(screen, limits, start) == d
  {
    QuietGoesOn(screen, limits, start, d, |screen.rows|);
    EndingMeaning(screen, limits, start);
    hide DecisionFor, FindingsAt;
  }

  // ---- What is detected -------------------------------------------------------------------------

  /** A call that the scan comes to is one of the detected ones, if there is room for all. */
  lemma CallIsDetected(screen: Screen, limits: Limits, scanStart: nat, maxBlocks: nat, blocks: seq<Block>, row: nat)
    requires IsDetection(screen, limits, scanStart, maxBlocks, blocks)
    requires |CallRows(screen, limits, scanStart, scanStart)| <= maxBlocks
    requires scanStart <= row < |screen.rows| && ComesTo(screen, limits, scanStart, scanStart, row)
    requires IsCallRow(screen, limits, scanStart, row)
    ensures exists k :: 0 <= k < |blocks| && blocks[k].rawStart == row
                        && Some(blocks[k].status) == CallStatus(screen, limits, row, screen.header(row).value)
                        && blocks[k].rawEndExclusive == CallEnd(screen, limits, row)
  {
    hide IsBashBlock, IsPromptContinuation, CallStatus, CallEnd;
    CallRowsMeaning(screen, limits, scanStart, scanStart, row);
    hide CallRows, IsCallRow, ComesTo;
    var k :| 0 <= k < |CallRows(screen, limits, scanStart, scanStart)|
             && CallRows(screen, limits, scanStart, scanStart)[k] == row;
    assert |Starts(blocks)| == |blocks|;
    assert Starts(blocks)[k] == blocks[k].rawStart;
  }

  // ---- What is shown of a call, and what no call may begin with -----------------------------------------

  /** The previews of a call begin its command and its output; each owns up exactly when something
      is missing, and the fingerprint is that of the whole texts. */
  lemma PreviewMeaning(screen: Screen, limits: Limits, block: Block)
    requires IsBashBlock(screen, limits, block)
    ensures var start, result, end := block.rawStart, block.outputRange.startLine, block.rawEndExclusive;
            var command := screen.commandText(start, result, screen.header(start).value.firstText);
            var output := if result < end then screen.outputText(result, end) else [];
            && command != [] && block.fingerprint == screen.fingerprint(command, output, block.status)
            && block.command <= command && |block.command| <= limits.maxCommandChars
            && (block.commandTruncated <==> block.command != command)
            && (block.commandTruncated ==> |block.command| + 1 >= limits.maxCommandChars)
            && block.output <= output && |block.output| <= limits.maxOutputChars
            && (block.outputTruncated <==> block.output != output)
            && (block.outputTruncated ==> |block.output| + 1 >= limits.maxOutputChars)
  {
    hide TruncateUtf16;
  }

  /** A prompt echo stands at `i`: a prompt row of ordinary length that is not the composer. */
  predicate IsEcho(screen: Screen, i: nat)
    requires i < |screen.rows|
  {
    |screen.rows[i]| <= 65_536 && screen.boundary(i) == Some(UserPrompt) && !screen.composerPrompt(i)
  }

  /** The composer or a sure header of a call stands at `i`, and is of ordinary length. */
  predicate IsSureOfItself(screen: Screen, i: nat)
    requires i < |screen.rows|
  {
    && |screen.rows[i]| <= 65_536
    && (screen.boundary(i) == Some(UserPrompt) ==> screen.composerPrompt(i))
    && (screen.boundary(i) != Some(UserPrompt) ==> screen.strongHeader(i))
  }

  /** The rows where no call may begin: those below a prompt echo, or below the upper edge of a
      scan that leaves rows out, as far as the next composer or sure header. */
  lemma PromptRowsMeaning(screen: Screen, scanStart: nat, i: nat)
    requires scanStart <= i < |screen.rows|
    ensures IsPromptContinuation(screen, scanStart, i) <==>
              && !IsEcho(screen, i)
              && (forall k :: scanStart <= k <= i && IsSureOfItself(screen, k) ==>
                    exists j :: k < j < i && IsEcho(screen, j))
              && (scanStart > 0 || exists j :: scanStart <= j < i && IsEcho(screen, j))
  {
    forall k: nat | k < |screen.rows|
      ensures OpensGuard(screen, k) <==> IsEcho(screen, k)
      ensures ClosesGuard(screen, k) <==> IsSureOfItself(screen, k)
    {
    }
    hide OpensGuard, ClosesGuard, IsEcho, IsSureOfItself;
    if (scanStart > 0 || exists j :: scanStart <= j < i && IsEcho(screen, j))
       && (forall k :: scanStart <= k <= i && IsSureOfItself(screen, k) ==> exists j :: k < j < i && IsEcho(screen, j))
    {
      if exists j :: scanStart <= j < i && IsEcho(screen, j) {
        var j := LastEcho(screen, scanStart, i);
        assert IsOpenSince(screen, j, i);
      }
    }
    if IsPromptContinuation(screen, scanStart, i) {
      forall k | scanStart <= k <= i && IsSureOfItself(screen, k) ensures exists j :: k < j < i && IsEcho(screen, j) {
        assert ClosesGuard(screen, k);
        var j :| scanStart <= j < i && IsOpenSince(screen, j, i);
        EchoIsNotSure(screen, j);
      }
    }
  }

  lemma EchoIsNotSure(screen: Screen, j: nat)
    requires j < |screen.rows|
    ensures !(OpensGuard(screen, j) && ClosesGuard(screen, j))
  {
  }

  lemma {:induction false} LastEcho(screen: Screen, scanStart: nat, i: nat) returns (j: nat)
    requires i <= |screen.rows| && exists j :: scanStart <= j < i && IsEcho(screen, j)
    ensures scanStart <= j < i && IsEcho(screen, j) && forall k :: j < k < i ==> !IsEcho(screen, k)
    decreases i
  {
    if IsEcho(screen, i - 1) {
      j := i - 1;
    } else {
      j := LastEcho(screen, scanStart, i - 1);
    }
  }
}
