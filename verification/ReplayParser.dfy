/** Reading an output journal (`parseReplayJournal` of core/src/replay.ts), and writing one:
    what a sender records with `chooseMuxOutputFrame` is read back exactly. */
module ReplayParser {
  import opened Wrappers
  import opened Text
  import opened Protocol
  import opened Replay

  datatype Problem =
    | NoRecords | BlankLine | MalformedRecord | SessionMismatch | ChannelMismatch | InvalidTimestamp | OutOfOrder
    | FirstIsDelta | NoPriorFrame | DeltaDoesNotValidate | DeltaNotEligible

  /** What is wrong, and on which line. */
  datatype Failure = Failure(problem: Problem, line: nat)

  // ---- Lines of the file --------------------------------------------------------------------------

  /** The text between newlines; what follows the last newline is an unfinished line. */
  function CompleteLines(source: Text): seq<Text> {
    var lines := Split(source);
    lines[..|lines| - 1]
  }

  function IndexOfNewline(source: Text, start: nat): (index: int)
    requires start <= |source|
    ensures index == -1 ==> NEWLINE !in source[start..]
    ensures index != -1 ==> start <= index < |source| && source[index] == NEWLINE && NEWLINE !in source[start..index]
    decreases |source| - start
  {
    if start == |source| then -1
    else if source[start] == NEWLINE then start
    else
      var index := IndexOfNewline(source, start + 1);
      assert source[start..] == [source[start]] + source[start + 1..];
      assert index != -1 ==> source[start..index] == [source[start]] + source[start + 1..index];
      index
  }

  lemma CutAt(source: Text, start: nat, at: nat)
    requires start <= at < |source|
    ensures source[start..] == source[start..at] + [source[at]] + source[at + 1..]
  {
  }

  lemma WithoutLast<T>(a: seq<T>, last: T)
    ensures (a + [last])[..|a + [last]| - 1] == a
  {
  }

  /** Cutting off one more line keeps what is cut and what is left equal to the whole split. */
  lemma OneLineMore(source: Text, lines: seq<Text>, start: nat, newline: nat)
    requires start <= newline < |source| && Split(source) == lines + Split(source[start..])
    requires source[newline] == NEWLINE && NEWLINE !in source[start..newline]
    ensures Split(source) == lines + [source[start..newline]] + Split(source[newline + 1..])
  {
    hide Split;
    var line, rest := source[start..newline], source[newline + 1..];
    CutAt(source, start, newline);
    SplitAtNewline(line, rest);
    ConcatAssociates(lines, [line], Split(rest));
  }

  lemma LastLine(source: Text, lines: seq<Text>, start: nat)
    requires start <= |source| && Split(source) == lines + Split(source[start..]) && NEWLINE !in source[start..]
    ensures CompleteLines(source) == lines
  {
    hide Split;
    SplitOfLine(source[start..]);
    WithoutLast(lines, source[start..]);
  }

  method SplitCompleteNdjsonLines(source: Text) returns (lines: seq<Text>)
    ensures lines == CompleteLines(source)
  {
    lines := [];
    var start: nat := 0;
    while true
      invariant start <= |source|
      invariant Split(source) == lines + Split(source[start..])
      decreases |source| - start
    {
      hide Split;
      var newline := IndexOfNewline(source, start);
      if newline == -1 {
        LastLine(source, lines, start);
        break;
      }
      OneLineMore(source, lines, start, newline);
      lines := lines + [source[start..newline]];
      start := newline + 1;
    }
  }

  // ---- One record -----------------------------------------------------------------------------------

  /** Reading one line as a record, its shape included: taken from outside. */
  type Reader = Text -> Option<Record>

  function FinalState(env: Env, records: seq<Parsed>): Option<State> {
    if |records| == 0 then None else StateAt(env, records, |records| - 1)
  }

  /** The full frame that a delta stands for. */
  function CandidateFull(session: Text, lines: seq<Text>, cursor: Cursor): Frame {
    Output(session, Join(lines), cursor, None)
  }

  /** Whether a line may follow the records before it, and what it then adds. */
  function CheckLine(env: Env, read: Reader, earlier: seq<Parsed>, rawLine: Text): Result<Parsed, Problem> {
    if |rawLine| == 0 then Err(BlankLine)
    else
      var record := read(rawLine);
      if record.None? then Err(MalformedRecord)
      else if |earlier| > 0 && record.value.session != earlier[0].record.session then Err(SessionMismatch)
      else if record.value.frame.channel != record.value.session then Err(ChannelMismatch)
      else if record.value.at.NonFinite? then Err(InvalidTimestamp)
      else if |earlier| > 0 && record.value.at.value < earlier[|earlier| - 1].at then Err(OutOfOrder)
      else if |earlier| == 0 && record.value.frame.Delta? then Err(FirstIsDelta)
      else if record.value.frame.Output? then Ok(Parsed(record.value.at.value, record.value, rawLine))
      else CheckDelta(env, earlier, record.value, rawLine)
  }

  function CheckDelta(env: Env, earlier: seq<Parsed>, record: Record, rawLine: Text): Result<Parsed, Problem>
    requires record.at.Finite? && record.frame.Delta? && |earlier| > 0
  {
    var state := FinalState(env, earlier);
    if state.None? then Err(NoPriorFrame)
    else
      var next := ApplyMuxDelta(env, state.value.lines, record.frame);
      if next.None? then Err(DeltaDoesNotValidate)
      else if !ShouldUseMuxDelta(env, CandidateFull(earlier[0].record.session, next.value, record.frame.cursor),
          record.frame) then Err(DeltaNotEligible)
      else Ok(Parsed(record.at.value, record, rawLine))
  }

  /** The records of the first `n` lines, or the first thing that is wrong with them. */
  function ParseLines(env: Env, read: Reader, lines: seq<Text>, n: nat): (parsed: Result<seq<Parsed>, Failure>)
    requires n <= |lines|
    ensures parsed.Ok? ==> |parsed.value| == n
    ensures parsed.Err? ==> parsed.error.line < n
  {
    if n == 0 then Ok([])
    else
      var earlier := ParseLines(env, read, lines, n - 1);
      if earlier.Err? then earlier
      else
        var checked := CheckLine(env, read, earlier.value, lines[n - 1]);
        if checked.Err? then Err(Failure(checked.error, n - 1)) else Ok(earlier.value + [checked.value])
  }

  function ParseSpec(env: Env, read: Reader, source: Text): Result<seq<Parsed>, Failure> {
    var lines := CompleteLines(source);
    if |lines| == 0 then Err(Failure(NoRecords, 0)) else ParseLines(env, read, lines, |lines|)
  }

  // ---- What acceptance means -----------------------------------------------------------------------

  /** One session, ordered times, a full frame first, and every record can be reconstructed. */
  ghost predicate SoundRecords(env: Env, records: seq<Parsed>) {
    && Ordered(records) && Folds(env, records)
    && (|records| > 0 ==> records[0].record.frame.Output?)
    && (forall i :: 0 <= i < |records| ==>
          && records[i].record.session == records[i].record.frame.channel == records[0].record.session
          && records[i].record.at == Finite(records[i].at))
  }

  lemma SoundWithOneMore(env: Env, read: Reader, earlier: seq<Parsed>, rawLine: Text)
    requires SoundRecords(env, earlier) && CheckLine(env, read, earlier, rawLine).Ok?
    ensures SoundRecords(env, earlier + [CheckLine(env, read, earlier, rawLine).value])
  {
    var added := CheckLine(env, read, earlier, rawLine).value;
    var records := earlier + [added];
    var last := |earlier|;
    forall i: nat | i < |records| ensures StateAt(env, records, i).Some? {
      if i < last {
        StateAtIgnoresLater(env, earlier, [added], i);
      } else if last > 0 {
        StateAtIgnoresLater(env, earlier, [added], last - 1);
        assert Step(env, StateAt(env, records, last - 1).value, added.record.frame).Some?;
      }
    }
  }

  lemma {:induction false} ParsedIsSound(env: Env, read: Reader, lines: seq<Text>, n: nat)
    requires n <= |lines| && ParseLines(env, read, lines, n).Ok?
    ensures SoundRecords(env, ParseLines(env, read, lines, n).value)
  {
    if n > 0 {
      ParsedIsSound(env, read, lines, n - 1);
      hide SoundRecords, CheckLine;
      SoundWithOneMore(env, read, ParseLines(env, read, lines, n - 1).value, lines[n - 1]);
    }
  }

  /** A delta is made for these lines. */
  ghost predicate DeltaLands(env: Env, shown: seq<Text>, frame: Frame)
    requires frame.Delta?
  {
    && frame.baseLength == |shown| && 0 <= frame.prefix <= |shown|
    && frame.prefixHash == env.hash(shown[..frame.prefix])
    && (frame.cursor.At? ==> frame.cursor.col >= 0)
  }

  /** It keeps some of them, and is smaller than the full frame. */
  ghost predicate DeltaSaves(env: Env, shown: seq<Text>, session: Text, frame: Frame)
    requires frame.Delta? && DeltaLands(env, shown, frame)
  {
    && frame.prefix > 0
    && env.size(frame) < env.size(Output(session, Join(shown[..frame.prefix] + frame.lines), frame.cursor, None))
  }

  /** The record may stand behind the earlier ones. */
  ghost predicate MayFollow(env: Env, earlier: seq<Parsed>, record: Record) {
    && record.frame.channel == record.session && record.at.Finite?
    && if earlier == [] then record.frame.Output?
       else
         var last := |earlier| - 1;
         && record.session == earlier[0].record.session && earlier[last].at <= record.at.value
         && (record.frame.Delta? ==>
               var state := StateAt(env, earlier, last);
               && state.Some? && DeltaLands(env, state.value.lines, record.frame)
               && DeltaSaves(env, state.value.lines, record.session, record.frame))
  }

  /** A line is accepted exactly when it reads as a record that may follow. */
  lemma LineIsAccepted(env: Env, read: Reader, earlier: seq<Parsed>, rawLine: Text)
    ensures var checked := CheckLine(env, read, earlier, rawLine);
            && (checked.Ok? <==> rawLine != [] && read(rawLine).Some? && MayFollow(env, earlier, read(rawLine).value))
            && (checked.Ok? ==>
                  && read(rawLine) == Some(checked.value.record) && checked.value.rawLine == rawLine
                  && checked.value.record.at == Finite(checked.value.at))
  {
    hide StateAt;
  }

  /** What each refusal says of a record. */
  ghost predicate Explains(env: Env, earlier: seq<Parsed>, record: Record, problem: Problem) {
    match problem
    case SessionMismatch => earlier != [] && record.session != earlier[0].record.session
    case ChannelMismatch => record.frame.channel != record.session
    case InvalidTimestamp => record.at.NonFinite?
    case OutOfOrder => earlier != [] && record.at.Finite? && record.at.value < earlier[|earlier| - 1].at
    case FirstIsDelta => earlier == [] && record.frame.Delta?
    case NoPriorFrame => earlier != [] && StateAt(env, earlier, |earlier| - 1).None?
    case DeltaDoesNotValidate =>
      earlier != [] && record.frame.Delta?
      && var state := StateAt(env, earlier, |earlier| - 1);
         state.Some? && !DeltaLands(env, state.value.lines, record.frame)
    case DeltaNotEligible =>
      earlier != [] && record.frame.Delta?
      && var state := StateAt(env, earlier, |earlier| - 1);
         && state.Some? && DeltaLands(env, state.value.lines, record.frame)
         && !DeltaSaves(env, state.value.lines, record.session, record.frame)
    case _ => false
  }

  lemma RefusalMeaning(env: Env, read: Reader, earlier: seq<Parsed>, rawLine: Text)
    requires CheckLine(env, read, earlier, rawLine).Err?
    ensures var problem, record := CheckLine(env, read, earlier, rawLine).error, read(rawLine);
            if rawLine == [] then problem == BlankLine
            else if record.None? then problem == MalformedRecord
            else Explains(env, earlier, record.value, problem)
  {
    hide StateAt;
  }

  /** A journal is accepted exactly when it has a line, and each line reads as the record that
      came of it and may follow those before. */
  lemma {:induction false} ParseMeaning(env: Env, read: Reader, lines: seq<Text>, n: nat, records: seq<Parsed>)
    requires n <= |lines|
    ensures ParseLines(env, read, lines, n) == Ok(records) <==>
              |records| == n && forall i :: 0 <= i < n ==> Follows(env, read, lines, records, i)
  {
    if n > 0 && |records| == n {
      hide CheckLine, MayFollow;
      var front, last := records[..n - 1], records[n - 1];
      assert records == front + [last];
      forall i | 0 <= i < n - 1
        ensures Follows(env, read, lines, front, i) <==> Follows(env, read, lines, records, i)
      {
        assert front[..i] == records[..i] && front[i] == records[i];
      }
      ParseMeaning(env, read, lines, n - 1, front);
      OneLineFollows(env, read, lines, front, last);
      hide Follows;
      assert ParseLines(env, read, lines, n) == Ok(records) <==>
             ParseLines(env, read, lines, n - 1) == Ok(front) && CheckLine(env, read, front, lines[n - 1]) == Ok(last);
    }
  }

  lemma OneLineFollows(env: Env, read: Reader, lines: seq<Text>, front: seq<Parsed>, last: Parsed)
    requires |front| < |lines|
    ensures CheckLine(env, read, front, lines[|front|]) == Ok(last) <==>
              Follows(env, read, lines, front + [last], |front|)
  {
    LineIsAccepted(env, read, front, lines[|front|]);
    hide CheckLine, MayFollow;
    assert (front + [last])[..|front|] == front;
  }

  ghost predicate Follows(env: Env, read: Reader, lines: seq<Text>, records: seq<Parsed>, i: int) {
    && 0 <= i < |lines| && i < |records|
    && lines[i] != [] && records[i].rawLine == lines[i] && read(lines[i]) == Some(records[i].record)
    && records[i].record.at == Finite(records[i].at)
    && MayFollow(env, records[..i], records[i].record)
  }

  // ---- The parser --------------------------------------------------------------------------------------

  /** The loop's working values after the first records: the fold, its snapshots and checkpoints. */
  ghost predicate Working(env: Env, records: seq<Parsed>, state: Option<State>, checkpoints: seq<Checkpoint>,
      snapshots: seq<Snapshot>) {
    && SoundRecords(env, records)
    && state == FinalState(env, records)
    && Strided(|records|, snapshots)
    && (|records| > 0 ==> SnapshotsFit(env, records, snapshots) && AreCheckpoints(records, checkpoints))
    && (|records| == 0 ==> snapshots == [] && checkpoints == [])
  }

  lemma SnapshotsSurvive(env: Env, earlier: seq<Parsed>, added: Parsed, snapshots: seq<Snapshot>)
    requires SnapshotsFit(env, earlier, snapshots)
    ensures SnapshotsFit(env, earlier + [added], snapshots)
  {
    forall s | 0 <= s < |snapshots| ensures Agrees(env, earlier + [added], snapshots[s]) {
      StateAtIgnoresLater(env, earlier, [added], snapshots[s].recordIndex);
    }
  }

  lemma CheckpointsSurvive(earlier: seq<Parsed>, added: Parsed, checkpoints: seq<Checkpoint>)
    requires AreCheckpoints(earlier, checkpoints)
    ensures AreCheckpoints(earlier + [added], checkpoints)
  {
    hide Split;
    forall c | 0 <= c < |checkpoints| ensures IsCheckpoint(earlier + [added], checkpoints[c]) {
      assert IsCheckpoint(earlier, checkpoints[c]);
    }
  }

  lemma CheckpointAdded(records: seq<Parsed>, checkpoints: seq<Checkpoint>, checkpoint: Checkpoint)
    requires |records| > 0 && checkpoint.recordIndex == |records| - 1 && IsCheckpoint(records, checkpoint)
    requires if |records| == 1 then checkpoints == [] else AreCheckpoints(records, checkpoints)
    requires forall c :: 0 <= c < |checkpoints| ==> checkpoints[c].recordIndex < |records| - 1
    ensures AreCheckpoints(records, checkpoints + [checkpoint])
  {
    hide IsCheckpoint;
  }

  lemma SnapshotAdded(env: Env, records: seq<Parsed>, snapshots: seq<Snapshot>, snapshot: Snapshot)
    requires |records| > 0 && snapshot.recordIndex == |records| - 1 && Agrees(env, records, snapshot)
    requires if |records| == 1 then snapshots == [] else SnapshotsFit(env, records, snapshots)
    requires forall s :: 0 <= s < |snapshots| ==> snapshots[s].recordIndex < |records| - 1
    requires Strided(|records| - 1, snapshots)
    ensures SnapshotsFit(env, records, snapshots + [snapshot]) && Strided(|records|, snapshots + [snapshot])
  {
    var more := snapshots + [snapshot];
    assert more[|snapshots|] == snapshot;
    forall i: nat | i < |records| && i % SEEK_SNAPSHOT_STRIDE == 0 ensures HasSnapshot(more, i) {
      if i < |records| - 1 {
        assert HasSnapshot(snapshots, i);
        var s :| 0 <= s < |snapshots| && snapshots[s].recordIndex == i;
        assert more[s] == snapshots[s];
      }
    }
  }

  lemma FullFrameState(env: Env, records: seq<Parsed>, i: nat, state: State)
    requires i < |records| && StateAt(env, records, i) == Some(state) && records[i].record.frame.Output?
    ensures state.lines == Split(records[i].record.frame.data)
  {
    hide Split;
  }

  /** What one accepted line adds to the working values. */
  method TakeRecord(env: Env, ghost read: Reader, ghost rawLine: Text, records: seq<Parsed>, added: Parsed,
      state: State, checkpoints: seq<Checkpoint>, snapshots: seq<Snapshot>)
    returns (moreCheckpoints: seq<Checkpoint>, moreSnapshots: seq<Snapshot>)
    requires exists before :: Working(env, records, before, checkpoints, snapshots)
    requires CheckLine(env, read, records, rawLine) == Ok(added)
    requires StateAt(env, records + [added], |records|) == Some(state)
    ensures Working(env, records + [added], Some(state), moreCheckpoints, moreSnapshots)
  {
    ghost var before :| Working(env, records, before, checkpoints, snapshots);
    var index := |records|;
    var frame := added.record.frame;
    SoundWithOneMore(env, read, records, rawLine);
    if index > 0 {
      SnapshotsSurvive(env, records, added, snapshots);
      CheckpointsSurvive(records, added, checkpoints);
      assert forall c :: 0 <= c < |checkpoints| ==> IsCheckpoint(records, checkpoints[c]);
      assert forall s :: 0 <= s < |snapshots| ==> Agrees(env, records, snapshots[s]);
    }
    if frame.Output? {
      FullFrameState(env, records + [added], index, state);
    }
    assert index == 0 ==> frame.Output?;
    hide SoundRecords, CheckLine, StateAt, Split, AreCheckpoints;
    moreCheckpoints, moreSnapshots := checkpoints, snapshots;
    if frame.Output? {
      CheckpointAdded(records + [added], checkpoints, Checkpoint(index, added.at, frame, state.lines, added.rawLine));
      moreCheckpoints := checkpoints + [Checkpoint(index, added.at, frame, state.lines, added.rawLine)];
    }
    if frame.Output? || index % SEEK_SNAPSHOT_STRIDE == 0 {
      SnapshotAdded(env, records + [added], snapshots, Snapshot(index, state));
      moreSnapshots := snapshots + [Snapshot(index, state)];
    }
  }

  /** Read a journal: it holds exactly the records of the specification, ready for seeking, or
      the first failure is reported. */
  method ParseReplayJournal(env: Env, read: Reader, source: Text) returns (parsed: Result<ReplayJournal, Failure>)
    ensures parsed.Err? ==> ParseSpec(env, read, source) == Err(parsed.error)
    ensures parsed.Ok? ==>
              && fresh(parsed.value) && parsed.value.Valid() && parsed.value.lastState.None?
              && ParseSpec(env, read, source) == Ok(parsed.value.records)
              && parsed.value.env == env && parsed.value.session == parsed.value.records[0].record.session
              && Strided(|parsed.value.records|, parsed.value.seekSnapshots)
              && AreCheckpoints(parsed.value.records, parsed.value.checkpoints)
  {
    var lines := SplitCompleteNdjsonLines(source);
    if |lines| == 0 {
      return Err(Failure(NoRecords, 0));
    }
    var records: seq<Parsed> := [];
    var checkpoints: seq<Checkpoint>, snapshots: seq<Snapshot> := [], [];
    var current: Option<State> := None;
    hide SoundRecords, SnapshotsFit, AreCheckpoints, Strided, StateAt, CheckLine;
    NothingParsed(env);
    for index := 0 to |lines|
      invariant |records| == index && ParseLines(env, read, lines, index) == Ok(records)
      invariant Working(env, records, current, checkpoints, snapshots)
    {
      var checked := ReadRecord(env, read, records, current, lines[index]);
      FirstFailureStands(env, read, lines, index + 1, |lines|);
      if checked.Err? {
        return Err(Failure(checked.error, index));
      }
      var (added, state) := checked.value;
      checkpoints, snapshots := TakeRecord(env, read, lines[index], records, added, state, checkpoints, snapshots);
      current, records := Some(state), records + [added];
    }
    WorkingIsJournal(env, records, current, checkpoints, snapshots);
    var journal := new ReplayJournal.FromValidated(env, records[0].record.session, records, checkpoints,
        Some(snapshots));
    return Ok(journal);
  }

  lemma NothingParsed(env: Env)
    ensures Working(env, [], None, [], [])
  {
  }

  lemma WorkingIsJournal(env: Env, records: seq<Parsed>, state: Option<State>, checkpoints: seq<Checkpoint>,
      snapshots: seq<Snapshot>)
    requires Working(env, records, state, checkpoints, snapshots) && |records| > 0
    ensures IsJournal(env, records, checkpoints, snapshots) && Strided(|records|, snapshots)
    ensures AreCheckpoints(records, checkpoints)
  {
  }

  lemma {:induction false} FirstFailureStands(env: Env, read: Reader, lines: seq<Text>, n: nat, more: nat)
    requires n <= more <= |lines|
    ensures ParseLines(env, read, lines, n).Err? ==>
              ParseLines(env, read, lines, more) == ParseLines(env, read, lines, n)
  {
    if n < more {
      FirstFailureStands(env, read, lines, n, more - 1);
    }
  }

  /** The checks of one loop iteration, against the materialised base, with the state they leave. */
  method ReadRecord(env: Env, read: Reader, records: seq<Parsed>, current: Option<State>, rawLine: Text)
    returns (checked: Result<(Parsed, State), Problem>)
    requires SoundRecords(env, records) && current == FinalState(env, records)
    ensures checked.Err? ==> CheckLine(env, read, records, rawLine) == Err(checked.error)
    ensures checked.Ok? ==>
              && CheckLine(env, read, records, rawLine) == Ok(checked.value.0)
              && StateAt(env, records + [checked.value.0], |records|) == Some(checked.value.1)
  {
    if |rawLine| == 0 {
      return Err(BlankLine);
    }
    var reading := read(rawLine);
    if reading.None? {
      return Err(MalformedRecord);
    }
    var record := reading.value;
    if |records| > 0 && record.session != records[0].record.session {
      return Err(SessionMismatch);
    }
    if record.frame.channel != record.session {
      return Err(ChannelMismatch);
    }
    if record.at.NonFinite? {
      return Err(InvalidTimestamp);
    }
    if |records| > 0 && record.at.value < records[|records| - 1].at {
      return Err(OutOfOrder);
    }
    if |records| == 0 && record.frame.Delta? {
      return Err(FirstIsDelta);
    }
    var added := Parsed(record.at.value, record, rawLine);
    FoldTakesOneStep(env, records, added);
    hide StateAt, SoundRecords;
    if record.frame.Output? {
      return Ok((added, State(Split(record.frame.data), record.frame.cursor)));
    }
    if current.None? {
      return Err(NoPriorFrame);
    }
    if !ValidateMuxDeltaFrame(env, record.frame, current.value.lines) {
      return Err(DeltaDoesNotValidate);
    }
    var candidateNext := ApplyMuxDelta(env, current.value.lines, record.frame);
    var nextCursor := if record.frame.cursor.Absent? then current.value.cursor else record.frame.cursor;
    var candidateFull := CandidateFull(records[0].record.session, candidateNext.value, record.frame.cursor);
    if !ShouldUseMuxDelta(env, candidateFull, record.frame) {
      return Err(DeltaNotEligible);
    }
    return Ok((added, State(candidateNext.value, nextCursor)));
  }

  lemma FoldTakesOneStep(env: Env, records: seq<Parsed>, added: Parsed)
    requires Folds(env, records)
    ensures StateAt(env, records + [added], |records|) ==
            if |records| == 0 then (if added.record.frame.Output?
                then Some(State(Split(added.record.frame.data), added.record.frame.cursor)) else None)
            else Step(env, FinalState(env, records).value, added.record.frame)
  {
    if |records| > 0 {
      StateAtIgnoresLater(env, records, [added], |records| - 1);
    }
  }

  // ---- Writing a journal, and reading it back --------------------------------------------------------

  /** One state of the pane that a sender records. */
  datatype Pane = Pane(at: real, data: Text, cursor: Cursor, reset: Option<Reset>)

  function FullFrame(session: Text, pane: Pane): Frame {
    Output(session, pane.data, pane.cursor, pane.reset)
  }

  /** The frame recorded for pane `i`: chosen against the lines of the pane before it. */
  function RecordedFrame(env: Env, session: Text, panes: seq<Pane>, i: nat): Frame
    requires i < |panes|
  {
    ChooseMuxOutputFrame(env, FullFrame(session, panes[i]), if i == 0 then [] else Split(panes[i - 1].data))
  }

  function RecordedRecord(env: Env, session: Text, panes: seq<Pane>, i: nat): Record
    requires i < |panes|
  {
    Record(session, Finite(panes[i].at), RecordedFrame(env, session, panes, i))
  }

  type Writer = Record -> Text

  function RecordedLines(env: Env, write: Writer, session: Text, panes: seq<Pane>): (lines: seq<Text>)
    ensures |lines| == |panes|
  {
    seq(|panes|, i requires 0 <= i < |panes| => write(RecordedRecord(env, session, panes, i)))
  }

  /** The file: every line with its newline. */
  function Terminated(lines: seq<Text>): Text {
    if lines == [] then [] else lines[0] + [NEWLINE] + Terminated(lines[1..])
  }

  lemma {:induction false} TerminatedLinesComeBack(lines: seq<Text>)
    requires forall i :: 0 <= i < |lines| ==> NEWLINE !in lines[i]
    ensures Split(Terminated(lines)) == lines + [[]] && CompleteLines(Terminated(lines)) == lines
  {
    if lines != [] {
      TerminatedLinesComeBack(lines[1..]);
      SplitAtNewline(lines[0], Terminated(lines[1..]));
      assert [lines[0]] + (lines[1..] + [[]]) == lines + [[]];
    }
    assert (lines + [[]])[..|lines|] == lines;
  }

  /** The text layer does its job on the records of this journal: what is written is one
      non-empty line, and reads back. */
  ghost predicate TextLayer(env: Env, read: Reader, write: Writer, session: Text, panes: seq<Pane>) {
    forall i: nat :: i < |panes| ==> ReadsBack(read, write, RecordedRecord(env, session, panes, i))
  }

  ghost predicate ReadsBack(read: Reader, write: Writer, record: Record) {
    && |write(record)| > 0 && NEWLINE !in write(record)
    && read(write(record)) == Some(record)
  }

  /** A record as it should come back. */
  function RecordedEntry(env: Env, write: Writer, session: Text, panes: seq<Pane>, i: nat): Parsed
    requires i < |panes|
  {
    var record := RecordedRecord(env, session, panes, i);
    Parsed(panes[i].at, record, write(record))
  }

  function RecordedParsed(env: Env, write: Writer, session: Text, panes: seq<Pane>, n: nat): (records: seq<Parsed>)
    requires n <= |panes|
    ensures |records| == n
    ensures forall i: nat :: i < n ==> records[i] == RecordedEntry(env, write, session, panes, i)
  {
    seq(n, i requires 0 <= i < n => RecordedEntry(env, write, session, panes, i))
  }

  /** A pane is worth a delta when it is not the first, resets nothing, shares its first line
      with the pane before, and the delta is smaller than the full frame. */
  predicate WorthADelta(env: Env, session: Text, panes: seq<Pane>, i: nat)
    requires i < |panes|
  {
    && i > 0 && panes[i].reset.None?
    && Split(panes[i - 1].data)[0] == Split(panes[i].data)[0]
    && env.size(CreateMuxDeltaFrame(env, session, Split(panes[i - 1].data), Split(panes[i].data), panes[i].cursor))
       < env.size(FullFrame(session, panes[i]))
  }

  /** That is exactly when it is recorded as one; the delta then leaves out exactly the lines
      that both panes begin with, and any other pane is recorded whole. */
  lemma RecordedAsDelta(env: Env, session: Text, panes: seq<Pane>, i: nat)
    requires i < |panes|
    ensures var frame := RecordedFrame(env, session, panes, i);
            if WorthADelta(env, session, panes, i) then
              var before, now := Split(panes[i - 1].data), Split(panes[i].data);
              && frame.Delta? && frame.channel == session && frame.cursor == panes[i].cursor
              && frame.baseLength == |before| && 0 < frame.prefix <= |before| && frame.prefix <= |now|
              && before[..frame.prefix] == now[..frame.prefix] && frame.lines == now[frame.prefix..]
              && frame.prefixHash == env.hash(now[..frame.prefix])
              && (frame.prefix == |before| || frame.prefix == |now| || before[frame.prefix] != now[frame.prefix])
            else
              frame.Output? && frame.channel == session && frame.data == panes[i].data
              && frame.cursor == panes[i].cursor && frame.reset == panes[i].reset
  {
    if i == 0 {
      FirstFrameIsFull(env, session, panes, i);
    } else {
      hide Split;
    }
  }

  /** A pane is lost when it is worth a delta and its caret column is negative. */
  predicate Lost(env: Env, session: Text, panes: seq<Pane>, i: nat)
    requires i < |panes|
  {
    WorthADelta(env, session, panes, i) && panes[i].cursor.At? && panes[i].cursor.col < 0
  }

  /** That is exactly when the sender records a delta that no receiver accepts. */
  lemma LostMeaning(env: Env, session: Text, panes: seq<Pane>, i: nat)
    requires i < |panes|
    ensures Lost(env, session, panes, i) <==>
              RecordedFrame(env, session, panes, i).Delta? && !IsMuxCursor(panes[i].cursor)
  {
    hide Split;
    if i == 0 {
      assert CommonPrefix([], Split(panes[i].data)) == 0;
    }
  }

  ghost predicate TimesRise(panes: seq<Pane>) {
    forall a, b :: 0 <= a <= b < |panes| ==> panes[a].at <= panes[b].at
  }

  /** The caret that the fold arrives at: a delta without one keeps the caret before it. */
  function CarriedCursor(env: Env, session: Text, panes: seq<Pane>, i: nat): Cursor
    requires i < |panes|
  {
    if i == 0 || !panes[i].cursor.Absent? || RecordedFrame(env, session, panes, i).Output? then panes[i].cursor
    else CarriedCursor(env, session, panes, i - 1)
  }

  /** Against no lines at all nothing can be saved. */
  lemma FirstFrameIsFull(env: Env, session: Text, panes: seq<Pane>, first: nat)
    requires |panes| > 0 && first == 0
    ensures RecordedFrame(env, session, panes, first) == FullFrame(session, panes[first])
  {
    assert CommonPrefix([], Split(panes[first].data)) == 0;
  }

  /** One recorded frame takes the pane before it to its own. */
  lemma RecordedFrameSteps(env: Env, session: Text, panes: seq<Pane>, i: nat, before: Cursor)
    requires 0 < i < |panes| && !Lost(env, session, panes, i)
    ensures Step(env, State(Split(panes[i - 1].data), before), RecordedFrame(env, session, panes, i)) ==
            Some(State(Split(panes[i].data),
                       if panes[i].cursor.Absent? && RecordedFrame(env, session, panes, i).Delta? then before
                           else panes[i].cursor))
  {
    LostMeaning(env, session, panes, i);
    ChosenFrameIsReceived(env, FullFrame(session, panes[i]), Split(panes[i - 1].data));
    hide Split, CommonPrefix, Lost;
  }

  /** Folding the recorded frames gives back the panes. */
  lemma {:induction false} FoldGivesPanes(env: Env, write: Writer, session: Text, panes: seq<Pane>, n: nat, i: nat)
    requires i < n <= |panes|
    requires forall k: nat :: k <= i ==> !Lost(env, session, panes, k)
    ensures StateAt(env, RecordedParsed(env, write, session, panes, n), i)
            == Some(State(Split(panes[i].data), CarriedCursor(env, session, panes, i)))
  {
    hide RecordedFrame, Lost, Split, Step;
    if i > 0 {
      FoldGivesPanes(env, write, session, panes, n, i - 1);
      RecordedFrameSteps(env, session, panes, i, CarriedCursor(env, session, panes, i - 1));
    } else {
      FirstFrameIsFull(env, session, panes, i);
    }
  }

  /** A delta the sender chose is always eligible for the parser: it stands for the same full frame. */
  lemma ChosenDeltaIsEligible(env: Env, session: Text, panes: seq<Pane>, i: nat)
    requires 0 < i < |panes| && RecordedFrame(env, session, panes, i).Delta?
    ensures ShouldUseMuxDelta(env, CandidateFull(session, Split(panes[i].data),
            RecordedFrame(env, session, panes, i).cursor), RecordedFrame(env, session, panes, i))
  {
    JoinUndoesSplit(panes[i].data);
    assert CandidateFull(session, Split(panes[i].data), panes[i].cursor) == FullFrame(session, panes[i]);
  }

  lemma RecordedDeltaChecks(env: Env, write: Writer, session: Text, panes: seq<Pane>, i: nat)
    requires 0 < i < |panes| && RecordedFrame(env, session, panes, i).Delta?
    requires forall k: nat :: k < i ==> !Lost(env, session, panes, k)
    ensures CheckDelta(env, RecordedParsed(env, write, session, panes, i), RecordedRecord(env, session, panes, i),
            write(RecordedRecord(env, session, panes, i))) ==
            if Lost(env, session, panes, i) then Err(DeltaDoesNotValidate)
                else Ok(RecordedEntry(env, write, session, panes, i))
  {
    hide StateAt, Split, ShouldUseMuxDelta, ApplyMuxDelta, RecordedFrame, CandidateFull;
    LostMeaning(env, session, panes, i);
    hide Lost;
    FoldGivesPanes(env, write, session, panes, i, i - 1);
    RecordedDelta(env, session, panes, i);
    ChosenDeltaIsEligible(env, session, panes, i);
  }

  lemma RecordedDelta(env: Env, session: Text, panes: seq<Pane>, i: nat)
    requires 0 < i < |panes| && RecordedFrame(env, session, panes, i).Delta?
    ensures RecordedFrame(env, session, panes, i).cursor == panes[i].cursor
    ensures ApplyMuxDelta(env, Split(panes[i - 1].data), RecordedFrame(env, session, panes, i)) ==
            if IsMuxCursor(panes[i].cursor) then Some(Split(panes[i].data)) else None
  {
    DeltaRebuildsNext(env, session, Split(panes[i - 1].data), Split(panes[i].data), panes[i].cursor);
    hide Split, ApplyMuxDelta, CommonPrefix;
  }

  /** One recorded line passes the checks exactly when its frame is not lost. */
  lemma RecordedLineChecks(env: Env, read: Reader, write: Writer, session: Text, panes: seq<Pane>, i: nat)
    requires i < |panes| && TextLayer(env, read, write, session, panes) && TimesRise(panes)
    requires forall k: nat :: k < i ==> !Lost(env, session, panes, k)
    ensures CheckLine(env, read, RecordedParsed(env, write, session, panes, i),
            RecordedLines(env, write, session, panes)[i]) ==
            if Lost(env, session, panes, i) then Err(DeltaDoesNotValidate)
            else Ok(RecordedEntry(env, write, session, panes, i))
  {
    LostMeaning(env, session, panes, i);
    hide CheckDelta, RecordedFrame, Lost;
    assert ReadsBack(read, write, RecordedRecord(env, session, panes, i));
    if i == 0 {
      FirstFrameIsFull(env, session, panes, i);
    } else if RecordedFrame(env, session, panes, i).Delta? {
      RecordedDeltaChecks(env, write, session, panes, i);
    }
    RecordedChannel(env, session, panes, i);
  }

  lemma RecordedChannel(env: Env, session: Text, panes: seq<Pane>, i: nat)
    requires i < |panes|
    ensures RecordedFrame(env, session, panes, i).channel == session
  {
  }

  lemma {:induction false} RecordedLinesParse(env: Env, read: Reader, write: Writer, session: Text, panes: seq<Pane>,
      n: nat)
    requires n <= |panes| && TextLayer(env, read, write, session, panes) && TimesRise(panes)
    requires forall k: nat :: k < n ==> !Lost(env, session, panes, k)
    ensures ParseLines(env, read, RecordedLines(env, write, session, panes), n) ==
            Ok(RecordedParsed(env, write, session, panes, n))
  {
    if n > 0 {
      RecordedLinesParse(env, read, write, session, panes, n - 1);
      RecordedLineChecks(env, read, write, session, panes, n - 1);
      hide CheckLine, RecordedEntry, RecordedLines, Lost;
      assert RecordedParsed(env, write, session, panes, n) == RecordedParsed(env, write, session, panes, n - 1) +
          [RecordedEntry(env, write, session, panes, n - 1)];
    } else {
      assert RecordedParsed(env, write, session, panes, 0) == [];
    }
  }

  /** The file a sender writes. */
  function Journal(env: Env, write: Writer, session: Text, panes: seq<Pane>): Text {
    Terminated(RecordedLines(env, write, session, panes))
  }

  /** Round trip: the parser takes back every journal a sender writes, if no frame is lost. */
  lemma JournalParses(env: Env, read: Reader, write: Writer, session: Text, panes: seq<Pane>)
    requires |panes| > 0 && TextLayer(env, read, write, session, panes) && TimesRise(panes)
    requires forall i: nat :: i < |panes| ==> !Lost(env, session, panes, i)
    ensures ParseSpec(env, read, Journal(env, write, session, panes)) ==
            Ok(RecordedParsed(env, write, session, panes, |panes|))
  {
    hide Split, ParseLines;
    JournalHasLines(env, read, write, session, panes);
    RecordedLinesParse(env, read, write, session, panes, |panes|);
  }

  lemma JournalHasLines(env: Env, read: Reader, write: Writer, session: Text, panes: seq<Pane>)
    requires TextLayer(env, read, write, session, panes)
    ensures CompleteLines(Journal(env, write, session, panes)) == RecordedLines(env, write, session, panes)
  {
    var lines := RecordedLines(env, write, session, panes);
    forall k | 0 <= k < |lines| ensures NEWLINE !in lines[k] {
      assert ReadsBack(read, write, RecordedRecord(env, session, panes, k));
    }
    TerminatedLinesComeBack(lines);
  }

  /** Every seek in it then shows the pane recorded last at that time, its caret too whenever it
      was recorded with one. */
  lemma JournalReplays(env: Env, write: Writer, session: Text, panes: seq<Pane>, time: real)
    requires |panes| > 0
    requires forall i: nat :: i < |panes| ==> !Lost(env, session, panes, i)
    ensures var records := RecordedParsed(env, write, session, panes, |panes|);
            var i := LastAtOrBefore(records, time, |records|);
            && StateAt(env, records, i).Some?
            && var found := LookupAt(env, session, records, i);
               && found.recordIndex == i && found.at == panes[i].at
               && found.lines == Split(panes[i].data)
               && found.frame == Output(session, panes[i].data, CarriedCursor(env, session, panes, i), panes[i].reset)
  {
    var records := RecordedParsed(env, write, session, panes, |panes|);
    var i := LastAtOrBefore(records, time, |records|);
    FoldGivesPanes(env, write, session, panes, |panes|, i);
    JoinUndoesSplit(panes[i].data);
    hide StateAt, Split, Join, CarriedCursor;
  }

  /** And it refuses the file exactly when some frame is lost: at the first such one. */
  lemma JournalIsRefused(env: Env, read: Reader, write: Writer, session: Text, panes: seq<Pane>, i: nat)
    requires TextLayer(env, read, write, session, panes) && TimesRise(panes)
    requires i < |panes| && Lost(env, session, panes, i) && forall k: nat :: k < i ==> !Lost(env, session, panes, k)
    ensures ParseSpec(env, read, Journal(env, write, session, panes)) == Err(Failure(DeltaDoesNotValidate, i))
  {
    hide Split, ParseLines, RecordedLines, Lost, Journal;
    JournalHasLines(env, read, write, session, panes);
    LostLineFails(env, read, write, session, panes, i);
    FirstFailureStands(env, read, RecordedLines(env, write, session, panes), i + 1, |panes|);
  }

  lemma LostLineFails(env: Env, read: Reader, write: Writer, session: Text, panes: seq<Pane>, i: nat)
    requires TextLayer(env, read, write, session, panes) && TimesRise(panes)
    requires i < |panes| && Lost(env, session, panes, i) && forall k: nat :: k < i ==> !Lost(env, session, panes, k)
    ensures ParseLines(env, read, RecordedLines(env, write, session, panes), i + 1) ==
            Err(Failure(DeltaDoesNotValidate, i))
  {
    hide CheckLine, Lost, RecordedLines, RecordedEntry;
    RecordedLinesParse(env, read, write, session, panes, i);
    RecordedLineChecks(env, read, write, session, panes, i);
  }

  function FirstLost(env: Env, session: Text, panes: seq<Pane>, n: nat): (first: Option<nat>)
    requires n <= |panes|
    ensures first.Some? ==> first.value < n && Lost(env, session, panes, first.value)
    ensures forall k: nat :: k < n && (first.Some? ==> k < first.value) ==> !Lost(env, session, panes, k)
  {
    if n == 0 then None
    else
      var before := FirstLost(env, session, panes, n - 1);
      if before.Some? then before else if Lost(env, session, panes, n - 1) then Some(n - 1) else None
  }

  /** A journal is read back exactly when no pane of it is lost, and is refused at the first one
      that is. */
  lemma JournalParsesUnlessLost(env: Env, read: Reader, write: Writer, session: Text, panes: seq<Pane>)
    requires |panes| > 0 && TextLayer(env, read, write, session, panes) && TimesRise(panes)
    ensures ParseSpec(env, read, Journal(env, write, session, panes)) ==
            match FirstLost(env, session, panes, |panes|)
            case None => Ok(RecordedParsed(env, write, session, panes, |panes|))
            case Some(i) => Err(Failure(DeltaDoesNotValidate, i))
  {
    hide Lost, Journal, ParseSpec, RecordedParsed;
    match FirstLost(env, session, panes, |panes|) {
      case None => JournalParses(env, read, write, session, panes);
      case Some(i) => JournalIsRefused(env, read, write, session, panes, i);
    }
  }

  // ---- A journal that is refused ----------------------------------------------------------------------

  /** A size that counts the text a frame carries. */
  function CarriedUnits(frame: Frame): nat {
    match frame
    case Output(_, data, _, _) => |data|
    case Delta(_, _, _, _, lines, _) => |Join(lines)|
  }

  const COUNTING := Env(_ => [], CarriedUnits)

  /** Two captures that differ in their second line, the later one with its caret left of the pane. */
  function CaretLeftOfPane(at: real): seq<Pane> {
    [Pane(at, [0x61, NEWLINE, 0x62], Absent, None), Pane(at, [0x61, NEWLINE, 0x63], At(0, -1), None)]
  }

  lemma CaretLeftOfPaneIsLost(session: Text, at: real)
    ensures Lost(COUNTING, session, CaretLeftOfPane(at), 1)
    ensures FirstLost(COUNTING, session, CaretLeftOfPane(at), 2) == Some(1)
  {
    var panes := CaretLeftOfPane(at);
    SplitOfLine([0x62]);
    SplitOfLine([0x63]);
    SplitAtNewline([0x61], [0x62]);
    SplitAtNewline([0x61], [0x63]);
    assert panes[0].data == [0x61] + [NEWLINE] + [0x62] && panes[1].data == [0x61] + [NEWLINE] + [0x63];
    var base, next := Split(panes[0].data), Split(panes[1].data);
    CommonPrefixIsLargest(base, next, 1);
    assert CommonPrefix(base, next) == 1;
    assert next[1..] == [[0x63]];
    assert !Lost(COUNTING, session, panes, 0);
  }

  /** So there are journals that a sender writes and the parser refuses. */
  lemma SomeJournalIsRefused(session: Text, at: real)
    ensures exists read: Reader, write: Writer ::
              && TextLayer(COUNTING, read, write, session, CaretLeftOfPane(at))
              && ParseSpec(COUNTING, read, Journal(COUNTING, write, session, CaretLeftOfPane(at)))
                 == Err(Failure(DeltaDoesNotValidate, 1))
  {
    var panes := CaretLeftOfPane(at);
    var first, second := RecordedRecord(COUNTING, session, panes, 0), RecordedRecord(COUNTING, session, panes, 1);
    var write: Writer := record => if record == first then [0x31] else [0x32];
    var read: Reader := text => if text == [0x31] then Some(first) else Some(second);
    CaretLeftOfPaneIsLost(session, at);
    hide Lost, ParseSpec, RecordedRecord, Journal;
    assert ReadsBack(read, write, first) && ReadsBack(read, write, second);
    assert TextLayer(COUNTING, read, write, session, panes);
    JournalParsesUnlessLost(COUNTING, read, write, session, panes);
  }
}
