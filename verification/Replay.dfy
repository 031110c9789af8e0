/** Output journals (core/src/replay.ts): a strict parser, and a seekable journal whose
    snapshots and memo never show in what it answers. */
module Replay {
  import opened Wrappers
  import opened Text
  import opened Protocol

  /** A JavaScript number, as far as times are concerned. */
  datatype Number = Finite(value: real) | NonFinite

  datatype Record = Record(session: Text, at: Number, frame: Frame)

  /** An accepted record with its time and its line in the journal. */
  datatype Parsed = Parsed(at: real, record: Record, rawLine: Text)

  datatype Checkpoint = Checkpoint(recordIndex: nat, at: real, frame: Frame, lines: seq<Text>, rawLine: Text)

  datatype State = State(lines: seq<Text>, cursor: Cursor)

  datatype Snapshot = Snapshot(recordIndex: nat, state: State)

  datatype Lookup = Lookup(at: real, recordIndex: nat, frame: Frame, lines: seq<Text>, rawLine: Text)

  const SEEK_SNAPSHOT_STRIDE: nat := 64

  // ---- The plain fold -----------------------------------------------------------------------------

  /** What one frame makes of the state before it. A delta without a caret keeps the old one. */
  function Step(env: Env, state: State, frame: Frame): Option<State> {
    if frame.Output? then Some(State(Split(frame.data), frame.cursor))
    else
      var next := ApplyMuxDelta(env, state.lines, frame);
      if next.None? then None
      else Some(State(next.value, if frame.cursor.Absent? then state.cursor else frame.cursor))
  }

  /** The state after record `i`, folding from the start; `None` when some delta does not fit. */
  function StateAt(env: Env, records: seq<Parsed>, i: nat): Option<State>
    requires i < |records|
  {
    var frame := records[i].record.frame;
    if i == 0 then
      if frame.Output? then Some(State(Split(frame.data), frame.cursor)) else None
    else
      var before := StateAt(env, records, i - 1);
      if before.None? then None else Step(env, before.value, frame)
  }

  lemma {:induction false} StateAtIgnoresLater(env: Env, records: seq<Parsed>, more: seq<Parsed>, i: nat)
    requires i < |records|
    ensures StateAt(env, records + more, i) == StateAt(env, records, i)
  {
    if i > 0 {
      StateAtIgnoresLater(env, records, more, i - 1);
    }
  }

  ghost predicate Ordered(records: seq<Parsed>) {
    forall a, b :: 0 <= a <= b < |records| ==> records[a].at <= records[b].at
  }

  /** Every record of the journal can be reconstructed. */
  ghost predicate Folds(env: Env, records: seq<Parsed>) {
    forall i: nat :: i < |records| ==> StateAt(env, records, i).Some?
  }

  // ---- Time ---------------------------------------------------------------------------------------

  /** The last of the first `n` records at or before the time; the first if there is none. */
  function LastAtOrBefore(records: seq<Parsed>, time: real, n: nat): (i: nat)
    requires 0 < n <= |records|
    ensures i < n
    ensures records[i].at <= time || i == 0
    ensures forall k :: i < k < n ==> time < records[k].at
  {
    if n == 1 || records[n - 1].at <= time then n - 1 else LastAtOrBefore(records, time, n - 1)
  }

  lemma LastAtOrBeforeIsUnique(records: seq<Parsed>, time: real, i: nat)
    requires Ordered(records) && i < |records|
    requires records[i].at <= time || i == 0
    requires i + 1 < |records| ==> time < records[i + 1].at
    ensures i == LastAtOrBefore(records, time, |records|)
  {
    assert forall k :: i < k < |records| ==> records[i + 1].at <= records[k].at;
  }

  // ---- The journal --------------------------------------------------------------------------------

  function FrameOf(session: Text, state: State, reset: Option<Reset>): Frame {
    Output(session, Join(state.lines), state.cursor, reset)
  }

  /** What looking up record `i` answers, by the plain fold. */
  function LookupAt(env: Env, session: Text, records: seq<Parsed>, i: nat): Lookup
    requires i < |records| && StateAt(env, records, i).Some?
  {
    var state := StateAt(env, records, i).value;
    var frame := records[i].record.frame;
    Lookup(records[i].at, i, FrameOf(session, state, if frame.Output? then frame.reset else None), state.lines,
        records[i].rawLine)
  }

  /** The snapshot holds what the fold gives. */
  ghost predicate Agrees(env: Env, records: seq<Parsed>, snapshot: Snapshot) {
    snapshot.recordIndex < |records| && StateAt(env, records, snapshot.recordIndex) == Some(snapshot.state)
  }

  ghost predicate SnapshotsFit(env: Env, records: seq<Parsed>, snapshots: seq<Snapshot>) {
    && |snapshots| > 0 && snapshots[0].recordIndex == 0
    && (forall s :: 0 <= s < |snapshots| ==> Agrees(env, records, snapshots[s]))
    && (forall s, t :: 0 <= s < t < |snapshots| ==> snapshots[s].recordIndex < snapshots[t].recordIndex)
  }

  /** Every stride has a snapshot at its start. */
  ghost predicate Strided(count: nat, snapshots: seq<Snapshot>) {
    forall i: nat :: i < count && i % SEEK_SNAPSHOT_STRIDE == 0 ==> HasSnapshot(snapshots, i)
  }

  ghost predicate HasSnapshot(snapshots: seq<Snapshot>, i: nat) {
    exists s :: 0 <= s < |snapshots| && snapshots[s].recordIndex == i
  }

  /** What construction from validated records relies on. */
  ghost predicate IsJournal(env: Env, records: seq<Parsed>, checkpoints: seq<Checkpoint>, snapshots: seq<Snapshot>) {
    && |records| > 0 && |checkpoints| > 0
    && Ordered(records) && Folds(env, records)
    && SnapshotsFit(env, records, snapshots)
  }

  function CheckpointSnapshots(checkpoints: seq<Checkpoint>): (snapshots: seq<Snapshot>)
    ensures |snapshots| == |checkpoints|
  {
    seq(|checkpoints|, c requires 0 <= c < |checkpoints| =>
      Snapshot(checkpoints[c].recordIndex, State(checkpoints[c].lines, checkpoints[c].frame.cursor)))
  }

  function SnapshotsOr(checkpoints: seq<Checkpoint>, snapshots: Option<seq<Snapshot>>): seq<Snapshot> {
    if snapshots.Some? then snapshots.value else CheckpointSnapshots(checkpoints)
  }

  /** The checkpoints are full frames of the journal, in order, the first of them its first record. */
  ghost predicate AreCheckpoints(records: seq<Parsed>, checkpoints: seq<Checkpoint>) {
    && |checkpoints| > 0 && checkpoints[0].recordIndex == 0
    && (forall c, d :: 0 <= c < d < |checkpoints| ==> checkpoints[c].recordIndex < checkpoints[d].recordIndex)
    && (forall c :: 0 <= c < |checkpoints| ==> IsCheckpoint(records, checkpoints[c]))
  }

  predicate IsCheckpoint(records: seq<Parsed>, checkpoint: Checkpoint) {
    && checkpoint.recordIndex < |records|
    && checkpoint.frame == records[checkpoint.recordIndex].record.frame
    && checkpoint.frame.Output? && checkpoint.lines == Split(checkpoint.frame.data)
  }

  /** A journal can be looked up by its checkpoints alone. */
  lemma CheckpointsServe(env: Env, records: seq<Parsed>, checkpoints: seq<Checkpoint>)
    requires |records| > 0 && Ordered(records) && Folds(env, records) && AreCheckpoints(records, checkpoints)
    ensures IsJournal(env, records, checkpoints, SnapshotsOr(checkpoints, None))
  {
    var snapshots := CheckpointSnapshots(checkpoints);
    forall s | 0 <= s < |snapshots| ensures Agrees(env, records, snapshots[s]) {
      assert IsCheckpoint(records, checkpoints[s]);
      assert StateAt(env, records, checkpoints[s].recordIndex).Some?;
    }
  }

  class ReplayJournal {
    const env: Env
    const session: Text
    const records: seq<Parsed>
    const checkpoints: seq<Checkpoint>
    const seekSnapshots: seq<Snapshot>
    const firstAt: real
    const lastAt: real
    var lastState: Option<Snapshot>

    ghost predicate Valid()
      reads this
    {
      && IsJournal(env, records, checkpoints, seekSnapshots)
      && firstAt == records[0].at && lastAt == records[|records| - 1].at
      && (lastState.Some? ==> Agrees(env, records, lastState.value))
    }

    /** Without snapshots the checkpoints serve as such. */
    constructor FromValidated(env: Env, session: Text, records: seq<Parsed>, checkpoints: seq<Checkpoint>,
        snapshots: Option<seq<Snapshot>>)
      requires IsJournal(env, records, checkpoints, SnapshotsOr(checkpoints, snapshots))
      ensures Valid() && this.env == env && this.session == session && this.records == records
      ensures this.checkpoints == checkpoints && lastState.None?
      ensures this.seekSnapshots == SnapshotsOr(checkpoints, snapshots)
    {
      this.env, this.session, this.records := env, session, records;
      this.checkpoints, this.seekSnapshots := checkpoints, SnapshotsOr(checkpoints, snapshots);
      this.firstAt, this.lastAt := records[0].at, records[|records| - 1].at;
      this.lastState := None;
    }

    /** Which record a time selects, by binary search. */
    method FindRecordIndexByTime(time: real) returns (index: nat)
      requires Valid()
      ensures index < |records| && index == LastAtOrBefore(records, time, |records|)
    {
      if time < firstAt {
        LastAtOrBeforeIsUnique(records, time, 0);
        return 0;
      }
      if time >= lastAt {
        LastAtOrBeforeIsUnique(records, time, |records| - 1);
        return |records| - 1;
      }
      var low: nat, high: nat := 0, |records| - 1;
      while low < high
        invariant low <= high < |records|
        invariant records[low].at <= time
        invariant forall k :: high < k < |records| ==> time < records[k].at
        decreases high - low
      {
        var mid := (low + high + 1) / 2;
        if records[mid].at <= time {
          low := mid;
        } else {
          high := mid - 1;
        }
      }
      LastAtOrBeforeIsUnique(records, time, low);
      return low;
    }

    /** The nearest snapshot at or before a record, by binary search. */
    method FindSeekSnapshotForRecordIndex(recordIndex: nat) returns (snapshot: Snapshot)
      requires Valid() && recordIndex < |records|
      ensures Agrees(env, records, snapshot) && snapshot.recordIndex <= recordIndex
      ensures forall s :: 0 <= s < |seekSnapshots| && seekSnapshots[s].recordIndex <= recordIndex ==>
                seekSnapshots[s].recordIndex <= snapshot.recordIndex
    {
      var low: nat, high: nat := 0, |seekSnapshots| - 1;
      while low < high
        invariant low <= high < |seekSnapshots|
        invariant seekSnapshots[low].recordIndex <= recordIndex
        invariant forall s :: high < s < |seekSnapshots| ==> recordIndex < seekSnapshots[s].recordIndex
        decreases high - low
      {
        var mid := (low + high + 1) / 2;
        if seekSnapshots[mid].recordIndex <= recordIndex {
          low := mid;
        } else {
          high := mid - 1;
        }
      }
      return seekSnapshots[low];
    }

    /** The state after a record: from the memo or a snapshot, whichever is nearer, stepping the
        rest. Neither of the source's two `throw`s can be reached. */
    method ReconstructState(recordIndex: nat) returns (state: State, ghost stepped: nat)
      requires Valid() && recordIndex < |records|
      modifies this`lastState
      ensures Valid() && StateAt(env, records, recordIndex) == Some(state)
      ensures lastState == Some(Snapshot(recordIndex, state))
      ensures Strided(|records|, seekSnapshots) ==> stepped < SEEK_SNAPSHOT_STRIDE
      ensures old(lastState) == Some(Snapshot(recordIndex, state)) ==> stepped == 0
    {
      var snapshot := FindSeekSnapshotForRecordIndex(recordIndex);
      var start := snapshot;
      if lastState.Some? && lastState.value.recordIndex <= recordIndex
          && lastState.value.recordIndex >= snapshot.recordIndex {
        start := lastState.value;
      }
      state := start.state;
      stepped := 0;
      for i := start.recordIndex + 1 to recordIndex + 1
        invariant StateAt(env, records, i - 1) == Some(state)
        invariant stepped == i - 1 - start.recordIndex
      {
        stepped := stepped + 1;
        var frame := records[i].record.frame;
        assert StateAt(env, records, i).Some?;
        if frame.Output? {
          state := State(Split(frame.data), frame.cursor);
        } else {
          var next := ApplyMuxDelta(env, state.lines, frame);
          state := State(next.value, if frame.cursor.Absent? then state.cursor else frame.cursor);
        }
      }
      lastState := Some(Snapshot(recordIndex, state));
      if Strided(|records|, seekSnapshots) {
        StrideBounds(|records|, seekSnapshots, recordIndex, snapshot.recordIndex);
      }
    }

    /** Looking up a time answers what the fold over the records gives, whatever was looked up
        before; only a time that is not finite is refused. */
    method Seek(time: Number) returns (found: Option<Lookup>, ghost stepped: nat)
      requires Valid()
      modifies this`lastState
      ensures Valid()
      ensures found.None? <==> time.NonFinite?
      ensures time.NonFinite? ==> lastState == old(lastState)
      ensures time.Finite? ==> found == Some(LookupAt(env, session, records,
              LastAtOrBefore(records, time.value, |records|)))
      ensures Strided(|records|, seekSnapshots) ==> stepped < SEEK_SNAPSHOT_STRIDE
    {
      if time.NonFinite? {
        return None, 0;
      }
      var recordIndex := FindRecordIndexByTime(time.value);
      var record := records[recordIndex];
      var state;
      state, stepped := ReconstructState(recordIndex);
      var frame := FrameOf(session, state, None);
      if record.record.frame.Output? && record.record.frame.reset.Some? {
        frame := frame.(reset := record.record.frame.reset);
      }
      found := Some(Lookup(record.at, recordIndex, frame, state.lines, record.rawLine));
    }
  }

  lemma StrideBounds(count: nat, snapshots: seq<Snapshot>, recordIndex: nat, nearest: nat)
    requires Strided(count, snapshots) && recordIndex < count
    requires forall s :: 0 <= s < |snapshots| && snapshots[s].recordIndex <= recordIndex ==>
               snapshots[s].recordIndex <= nearest
    ensures recordIndex < nearest + SEEK_SNAPSHOT_STRIDE
  {
    var start := recordIndex - recordIndex % SEEK_SNAPSHOT_STRIDE;
    assert start % SEEK_SNAPSHOT_STRIDE == 0;
    assert HasSnapshot(snapshots, start);
  }
}
