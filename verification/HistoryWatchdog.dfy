/** The stream watchdog (`StreamCaptureWatchdog` of server/src/history-watchdog.ts): silence is
    healthy; an unacknowledged submission or unreceived source progress starts a 500 ms clock. */
module HistoryWatchdog {
  import opened Wrappers

  datatype Reason = AckTimeout | StalledInput | Sequence

  /** A counter argument: `None` for anything that is not a safe integer. */
  type Counter = Option<int>

  datatype Event =
    | Reset | Receive(total: Counter) | SourceProgress(total: Counter) | Submitted(number: Counter)
        | Ack(number: Counter) | Tick

  /** A call and the clock's answer during it. */
  datatype Call = Call(event: Event, at: real)

  datatype State = State(ackPendingAt: Option<real>, movementAt: Option<real>, received: int,
                         source: Option<int>, sent: int, acked: int, emitted: set<Reason>)

  const FRESH: State := State(None, None, 0, None, 0, 0, {})

  const SUSPICION: real := 500.0

  /** What a call leaves and tells; a call that throws changes nothing. */
  datatype Outcome = Outcome(state: State, notified: seq<Reason>, threw: bool)

  // ---- One call -----------------------------------------------------------------------------------

  function Emit(state: State, reason: Reason): Outcome {
    if reason in state.emitted then Outcome(state, [], false)
    else Outcome(state.(emitted := state.emitted + {reason}), [reason], false)
  }

  function Quietly(state: State): Outcome {
    Outcome(state, [], false)
  }

  function Started(clock: Option<real>, now: real): Option<real> {
    if clock.None? then Some(now) else clock
  }

  predicate Expired(clock: Option<real>, now: real) {
    clock.Some? && now - clock.value >= SUSPICION
  }

  function Next(state: State, call: Call): Outcome {
    match call.event
    case Reset => Quietly(FRESH)
    case Receive(total) =>
      if total.None? || total.value < state.received then Outcome(state, [], true)
      else if total.value > state.received then
        Quietly(state.(movementAt := None, emitted := state.emitted - {StalledInput}, received := total.value))
      else Quietly(state)
    case SourceProgress(total) =>
      if total.None? || total.value < 0 then Outcome(state, [], true)
      else if state.source.Some? && total.value < state.source.value then Emit(state, Sequence)
      else if state.source.Some? && total.value > state.source.value then
        Quietly(state.(movementAt := Started(state.movementAt, call.at), source := total))
      else Quietly(state.(source := total))
    case Submitted(number) =>
      if number != Some(state.sent + 1) then Emit(state, Sequence)
      else Quietly(state.(sent := number.value, ackPendingAt := Started(state.ackPendingAt, call.at)))
    case Ack(number) =>
      if number.None? || number.value < state.acked || number.value > state.sent then Emit(state, Sequence)
      else if number.value > state.acked then
        Quietly(state.(acked := number.value, ackPendingAt := if number.value == state.sent then None
            else Some(call.at),
                       emitted := state.emitted - {AckTimeout}))
      else Quietly(state)
    case Tick =>
      var first := if Expired(state.ackPendingAt, call.at) then Emit(state, AckTimeout) else Quietly(state);
      var second := if Expired(state.movementAt, call.at) then Emit(first.state, StalledInput)
          else Quietly(first.state);
      Outcome(second.state, first.notified + second.notified, false)
  }

  class StreamCaptureWatchdog {
    var ackPendingAt: Option<real>
    var movementAt: Option<real>
    var received: int
    var source: Option<int>
    var sent: int
    var acked: int
    var emitted: set<Reason>

    function Current(): State
      reads this
    {
      State(ackPendingAt, movementAt, received, source, sent, acked, emitted)
    }

    constructor ()
      ensures Current() == FRESH
    {
      ackPendingAt, movementAt, received, source, sent, acked, emitted := None, None, 0, None, 0, 0, {};
    }

    method ResetAll()
      modifies this
      ensures Current() == Next(old(Current()), Call(Reset, 0.0)).state
    {
      ackPendingAt, movementAt, source := None, None, None;
      received, sent, acked, emitted := 0, 0, 0, {};
    }

    method OnReceive(total: Counter) returns (threw: bool)
      modifies this
      ensures forall now :: Next(old(Current()), Call(Receive(total), now)) == Outcome(Current(), [], threw)
    {
      if total.None? || total.value < received {
        return true;
      }
      if total.value > received {
        movementAt, emitted := None, emitted - {StalledInput};
      }
      received := total.value;
      return false;
    }

    method OnSourceProgress(total: Counter, now: real) returns (notified: seq<Reason>, threw: bool)
      modifies this
      ensures Next(old(Current()), Call(SourceProgress(total), now)) == Outcome(Current(), notified, threw)
    {
      notified, threw := [], false;
      if total.None? || total.value < 0 {
        return [], true;
      }
      if source.Some? && total.value < source.value {
        notified := Report(Sequence);
        return;
      }
      if source.Some? && total.value > source.value {
        movementAt := if movementAt.None? then Some(now) else movementAt;
      }
      source := total;
    }

    method OnSubmitted(number: Counter, now: real) returns (notified: seq<Reason>)
      modifies this
      ensures Next(old(Current()), Call(Submitted(number), now)) == Outcome(Current(), notified, false)
    {
      notified := [];
      if number.None? || number.value != sent + 1 {
        notified := Report(Sequence);
        return;
      }
      sent := number.value;
      ackPendingAt := if ackPendingAt.None? then Some(now) else ackPendingAt;
    }

    method OnAck(number: Counter, now: real) returns (notified: seq<Reason>)
      modifies this
      ensures Next(old(Current()), Call(Ack(number), now)) == Outcome(Current(), notified, false)
    {
      notified := [];
      if number.None? || number.value < acked || number.value > sent {
        notified := Report(Sequence);
        return;
      }
      if number.value > acked {
        acked := number.value;
        ackPendingAt := if acked == sent then None else Some(now);
        emitted := emitted - {AckTimeout};
      }
    }

    method OnTick(now: real) returns (notified: seq<Reason>)
      modifies this
      ensures Next(old(Current()), Call(Tick, now)) == Outcome(Current(), notified, false)
    {
      notified := [];
      if ackPendingAt.Some? && now - ackPendingAt.value >= 500.0 {
        notified := Report(AckTimeout);
      }
      if movementAt.Some? && now - movementAt.value >= 500.0 {
        var more := Report(StalledInput);
        notified := notified + more;
      }
    }

    method Report(reason: Reason) returns (notified: seq<Reason>)
      modifies this`emitted
      ensures Emit(old(Current()), reason) == Outcome(Current(), notified, false)
    {
      if reason in emitted {
        return [];
      }
      emitted := emitted + {reason};
      return [reason];
    }
  }

  // ---- Runs ---------------------------------------------------------------------------------------

  function After(calls: seq<Call>, n: nat): State
    requires n <= |calls|
  {
    if n == 0 then FRESH else Next(After(calls, n - 1), calls[n - 1]).state
  }

  function NotifiedAt(calls: seq<Call>, k: nat): seq<Reason>
    requires k < |calls|
  {
    Next(After(calls, k), calls[k]).notified
  }

  /** The clock behind each kind of time-out; out-of-order numbers have none. */
  function Clock(state: State, reason: Reason): Option<real> {
    match reason
    case AckTimeout => state.ackPendingAt
    case StalledInput => state.movementAt
    case Sequence => None
  }

  /** Acknowledgements never overtake submissions, the clock runs exactly while one is
      outstanding, and a time-out is on record only while its clock runs. */
  ghost predicate Sane(s: State) {
    && 0 <= s.acked <= s.sent
    && (s.ackPendingAt.None? <==> s.acked == s.sent)
    && (forall reason :: reason in s.emitted ==> reason == Sequence || Clock(s, reason).Some?)
  }

  lemma NextIsSane(s: State, call: Call)
    requires Sane(s)
    ensures Sane(Next(s, call).state)
  {
    match call.event {
      case Receive(total) =>
      case SourceProgress(total) =>
      case Submitted(number) =>
      case Ack(number) =>
      case Tick =>
      case Reset =>
    }
  }

  lemma {:induction false} RunsAreSane(calls: seq<Call>, n: nat)
    requires n <= |calls|
    ensures Sane(After(calls, n))
  {
    if n > 0 {
      RunsAreSane(calls, n - 1);
      hide Sane, Next;
      NextIsSane(After(calls, n - 1), calls[n - 1]);
    }
  }

  /** What a running clock counts from: the first submission outstanding, progress on the
      acknowledgements that leaves some outstanding, or the first unreceived progress. */
  predicate Starts(before: State, after: State, reason: Reason) {
    match reason
    case AckTimeout => after.acked < after.sent && (before.acked == before.sent || before.acked < after.acked)
    case StalledInput => after.movementAt.Some? && before.movementAt.None?
    case Sequence => false
  }

  /** A clock that is started shows the time of the call and nothing is on record for it; one
      that runs on keeps its time, and only a due tick puts it on record. */
  lemma OneCallOnClock(s: State, call: Call, reason: Reason)
    requires Sane(s) && Clock(Next(s, call).state, reason).Some?
    ensures var t := Next(s, call).state;
            if Starts(s, t, reason) then Clock(t, reason) == Some(call.at) && reason !in t.emitted
            else && Clock(s, reason) == Clock(t, reason)
                 && (reason in t.emitted <==>
                       reason in s.emitted || (call.event.Tick? && Expired(Clock(s, reason), call.at)))
  {
    match call.event {
      case Receive(total) =>
      case SourceProgress(total) =>
      case Submitted(number) =>
      case Ack(number) =>
      case Tick =>
      case Reset =>
    }
  }

  predicate StartsClock(calls: seq<Call>, k: nat, reason: Reason)
    requires k < |calls|
  {
    Starts(After(calls, k), Next(After(calls, k), calls[k]).state, reason)
  }

  /** The last call that starts the clock. */
  function ClockStart(calls: seq<Call>, n: nat, reason: Reason): (start: Option<nat>)
    requires n <= |calls|
    ensures start.Some? ==> start.value < n
  {
    if n == 0 then None
    else if StartsClock(calls, n - 1, reason) then Some(n - 1)
    else ClockStart(calls, n - 1, reason)
  }

  lemma {:induction false} ClockStartIsLast(calls: seq<Call>, n: nat, reason: Reason, k: nat)
    requires k < n <= |calls|
    ensures var start := ClockStart(calls, n, reason);
            && (start.Some? ==>
                  StartsClock(calls, start.value, reason) && (start.value < k ==> !StartsClock(calls, k, reason)))
            && (start.None? ==> !StartsClock(calls, k, reason))
  {
    hide StartsClock;
    if k < n - 1 {
      ClockStartIsLast(calls, n - 1, reason, k);
    } else if k > 0 {
      ClockStartIsLast(calls, n - 1, reason, k - 1);
    }
  }

  /** A running clock shows the time of the last call that starts it. */
  lemma {:induction false} ClockShowsItsStart(calls: seq<Call>, n: nat, reason: Reason)
    requires n <= |calls| && Clock(After(calls, n), reason).Some?
    ensures ClockStart(calls, n, reason).Some?
    ensures Clock(After(calls, n), reason) == Some(calls[ClockStart(calls, n, reason).value].at)
  {
    hide Next, Sane, Starts;
    if n > 0 {
      RunsAreSane(calls, n - 1);
      OneCallOnClock(After(calls, n - 1), calls[n - 1], reason);
      if !StartsClock(calls, n - 1, reason) {
        ClockShowsItsStart(calls, n - 1, reason);
      }
    }
  }

  /** A tick at or past the time-out of the clock that call `start` started. */
  predicate TickIsDue(calls: seq<Call>, start: nat, k: nat)
    requires start <= k < |calls|
  {
    calls[k].event.Tick? && calls[k].at - calls[start].at >= SUSPICION
  }

  ghost predicate HasBeenDue(calls: seq<Call>, start: nat, n: nat)
    requires start < n <= |calls|
  {
    exists k :: start < k < n && TickIsDue(calls, start, k)
  }

  lemma OneMoreTick(calls: seq<Call>, start: nat, n: nat)
    requires start + 1 < n <= |calls|
    ensures HasBeenDue(calls, start, n) <==> HasBeenDue(calls, start, n - 1) || TickIsDue(calls, start, n - 1)
  {
  }

  /** A reason is on record exactly when a due tick has passed since the clock was started. */
  lemma {:induction false} OnRecordOnceDue(calls: seq<Call>, n: nat, reason: Reason)
    requires n <= |calls| && Clock(After(calls, n), reason).Some?
    ensures ClockStart(calls, n, reason).Some?
    ensures reason in After(calls, n).emitted <==> HasBeenDue(calls, ClockStart(calls, n, reason).value, n)
  {
    hide Next, Sane, Starts;
    ClockShowsItsStart(calls, n, reason);
    if n > 0 {
      RunsAreSane(calls, n - 1);
      OneCallOnClock(After(calls, n - 1), calls[n - 1], reason);
      if !StartsClock(calls, n - 1, reason) {
        OnRecordOnceDue(calls, n - 1, reason);
        ClockShowsItsStart(calls, n - 1, reason);
        OneMoreTick(calls, ClockStart(calls, n, reason).value, n);
      }
    }
  }

  lemma TickReports(s: State, call: Call, reason: Reason)
    requires call.event.Tick? && reason != Sequence
    ensures reason in Next(s, call).notified <==> reason !in s.emitted && Expired(Clock(s, reason), call.at)
  {
  }

  /** A tick reports a time-out exactly when its clock runs and this is the first due tick since
      the clock was started. */
  lemma TickReportsOnce(calls: seq<Call>, n: nat, reason: Reason)
    requires n < |calls| && calls[n].event.Tick? && reason != Sequence
    ensures reason in NotifiedAt(calls, n) <==>
              && Clock(After(calls, n), reason).Some?
              && var start := ClockStart(calls, n, reason);
                 start.Some? && TickIsDue(calls, start.value, n) && !HasBeenDue(calls, start.value, n)
  {
    TickReports(After(calls, n), calls[n], reason);
    hide Next, Sane, Starts;
    if Clock(After(calls, n), reason).Some? {
      OnRecordOnceDue(calls, n, reason);
      ClockShowsItsStart(calls, n, reason);
    }
  }

  /** The acknowledgement clock runs exactly while something is outstanding. */
  lemma ClockRunsWhileOutstanding(calls: seq<Call>, n: nat)
    requires n <= |calls|
    ensures 0 <= After(calls, n).acked <= After(calls, n).sent
    ensures After(calls, n).ackPendingAt.None? <==> After(calls, n).acked == After(calls, n).sent
  {
    RunsAreSane(calls, n);
  }

  // ---- Silence ------------------------------------------------------------------------------------

  predicate SourceRises(before: State, after: State) {
    before.source.Some? && after.source.Some? && before.source.value < after.source.value
  }

  /** Bytes arrive, or the watchdog is reset. */
  predicate Settles(before: State, call: Call, after: State) {
    call.event.Reset? || (call.event.Receive? && before.received < after.received)
  }

  lemma OneCallOnMovement(s: State, call: Call)
    ensures var t := Next(s, call).state;
            t.movementAt.Some? <==> SourceRises(s, t) || (s.movementAt.Some? && !Settles(s, call, t))
    ensures SourceRises(s, Next(s, call).state) ==> !Settles(s, call, Next(s, call).state)
  {
  }

  predicate SourceRisesAt(calls: seq<Call>, k: nat)
    requires k < |calls|
  {
    SourceRises(After(calls, k), Next(After(calls, k), calls[k]).state)
  }

  predicate SettlesAt(calls: seq<Call>, k: nat)
    requires k < |calls|
  {
    Settles(After(calls, k), calls[k], Next(After(calls, k), calls[k]).state)
  }

  ghost predicate StillUnmatched(calls: seq<Call>, k: nat, n: nat)
    requires k < n <= |calls|
  {
    SourceRisesAt(calls, k) && forall j :: k < j < n ==> !SettlesAt(calls, j)
  }

  /** The source has moved and nothing was received since. */
  ghost predicate UnmatchedProgress(calls: seq<Call>, n: nat)
    requires n <= |calls|
  {
    exists k :: 0 <= k < n && StillUnmatched(calls, k, n)
  }

  lemma OneCallMoreUnmatched(calls: seq<Call>, n: nat)
    requires 0 < n <= |calls|
    ensures UnmatchedProgress(calls, n) <==>
              SourceRisesAt(calls, n - 1) || (UnmatchedProgress(calls, n - 1) && !SettlesAt(calls, n - 1))
  {
    hide SourceRisesAt, SettlesAt;
    if SourceRisesAt(calls, n - 1) {
      assert StillUnmatched(calls, n - 1, n);
    }
    if UnmatchedProgress(calls, n - 1) && !SettlesAt(calls, n - 1) {
      var k :| 0 <= k < n - 1 && StillUnmatched(calls, k, n - 1);
      assert StillUnmatched(calls, k, n);
    }
    if UnmatchedProgress(calls, n) && !SourceRisesAt(calls, n - 1) {
      var k :| 0 <= k < n && StillUnmatched(calls, k, n);
      assert StillUnmatched(calls, k, n - 1);
    }
  }

  /** The stall clock runs exactly while there is unmatched progress. */
  lemma {:induction false} MovementMeansUnmatched(calls: seq<Call>, n: nat)
    requires n <= |calls|
    ensures After(calls, n).movementAt.Some? <==> UnmatchedProgress(calls, n)
  {
    if n > 0 {
      MovementMeansUnmatched(calls, n - 1);
      hide Next, UnmatchedProgress;
      OneCallOnMovement(After(calls, n - 1), calls[n - 1]);
      OneCallMoreUnmatched(calls, n);
    }
  }

  /** Silence is healthy: with nothing outstanding and no unmatched progress no tick reports. */
  lemma SilenceIsHealthy(calls: seq<Call>, n: nat)
    requires n < |calls| && calls[n].event.Tick?
    requires After(calls, n).acked == After(calls, n).sent && !UnmatchedProgress(calls, n)
    ensures NotifiedAt(calls, n) == []
  {
    ClockRunsWhileOutstanding(calls, n);
    MovementMeansUnmatched(calls, n);
  }

  // ---- Counters and their order -------------------------------------------------------------------

  /** The submissions since the last reset that carried the next number. */
  function SubmissionsAccepted(calls: seq<Call>, n: nat): nat
    requires n <= |calls|
  {
    if n == 0 then 0
    else
      var before := SubmissionsAccepted(calls, n - 1);
      match calls[n - 1].event
      case Reset => 0
      case Submitted(number) => if number == Some(before + 1) then before + 1 else before
      case _ => before
  }

  /** The last acknowledged number since then that did not go back and was submitted. */
  function LastAcknowledged(calls: seq<Call>, n: nat): int
    requires n <= |calls|
  {
    if n == 0 then 0
    else
      var before := LastAcknowledged(calls, n - 1);
      match calls[n - 1].event
      case Reset => 0
      case Ack(number) =>
        if number.Some? && before <= number.value <= SubmissionsAccepted(calls, n - 1) then number.value else before
      case _ => before
  }

  /** The highest byte count received since then. */
  function HighestReceived(calls: seq<Call>, n: nat): int
    requires n <= |calls|
  {
    if n == 0 then 0
    else
      var before := HighestReceived(calls, n - 1);
      match calls[n - 1].event
      case Reset => 0
      case Receive(total) => if total.Some? && total.value > before then total.value else before
      case _ => before
  }

  /** The highest progress of the source since then, if it has told any. */
  function HighestSource(calls: seq<Call>, n: nat): Option<int>
    requires n <= |calls|
  {
    if n == 0 then None
    else
      var before := HighestSource(calls, n - 1);
      match calls[n - 1].event
      case Reset => None
      case SourceProgress(total) =>
        if total.Some? && total.value >= 0 && (before.None? || total.value > before.value) then total else before
      case _ => before
  }

  /** The fields are these counters of the calls. */
  lemma {:induction false} FieldsAreCounters(calls: seq<Call>, n: nat)
    requires n <= |calls|
    ensures After(calls, n).sent == SubmissionsAccepted(calls, n)
    ensures After(calls, n).acked == LastAcknowledged(calls, n)
    ensures After(calls, n).received == HighestReceived(calls, n)
    ensures After(calls, n).source == HighestSource(calls, n)
  {
    if n > 0 {
      FieldsAreCounters(calls, n - 1);
    }
  }

  /** A number that is not the next to submit, an acknowledgement that goes back or ahead, or a
      source that goes back. */
  predicate IsOutOfOrder(calls: seq<Call>, k: nat)
    requires k < |calls|
  {
    match calls[k].event
    case Submitted(number) => number != Some(SubmissionsAccepted(calls, k) + 1)
    case Ack(number) =>
      number.None? || number.value < LastAcknowledged(calls, k) || number.value > SubmissionsAccepted(calls, k)
    case SourceProgress(total) =>
      total.Some? && total.value >= 0 && HighestSource(calls, k).Some? && total.value < HighestSource(calls, k).value
    case _ => false
  }

  /** Something has been out of order since the last reset. */
  predicate DisorderIsKnown(calls: seq<Call>, n: nat)
    requires n <= |calls|
  {
    n > 0 && !calls[n - 1].event.Reset? && (IsOutOfOrder(calls, n - 1) || DisorderIsKnown(calls, n - 1))
  }

  lemma {:induction false} DisorderIsOnRecord(calls: seq<Call>, n: nat)
    requires n <= |calls|
    ensures Sequence in After(calls, n).emitted <==> DisorderIsKnown(calls, n)
  {
    if n > 0 {
      DisorderIsOnRecord(calls, n - 1);
      FieldsAreCounters(calls, n - 1);
      hide SubmissionsAccepted, LastAcknowledged, HighestReceived, HighestSource, DisorderIsKnown, After;
      SequenceStep(calls, n - 1, After(calls, n - 1));
      DisorderStep(calls, n);
      assert After(calls, n) == Next(After(calls, n - 1), calls[n - 1]).state by {
        AfterStep(calls, n);
      }
    }
  }

  lemma AfterStep(calls: seq<Call>, n: nat)
    requires 0 < n <= |calls|
    ensures After(calls, n) == Next(After(calls, n - 1), calls[n - 1]).state
  {
  }

  lemma DisorderStep(calls: seq<Call>, n: nat)
    requires 0 < n <= |calls|
    ensures DisorderIsKnown(calls, n) <==>
              !calls[n - 1].event.Reset? && (IsOutOfOrder(calls, n - 1) || DisorderIsKnown(calls, n - 1))
  {
  }

  lemma SequenceStep(calls: seq<Call>, k: nat, s: State)
    requires k < |calls|
    requires s.sent == SubmissionsAccepted(calls, k) && s.acked == LastAcknowledged(calls, k)
    requires s.source == HighestSource(calls, k)
    ensures var outcome := Next(s, calls[k]);
            && (Sequence in outcome.state.emitted <==>
                  !calls[k].event.Reset? && (IsOutOfOrder(calls, k) || Sequence in s.emitted))
            && (Sequence in outcome.notified <==> IsOutOfOrder(calls, k) && Sequence !in s.emitted)
  {
    hide SubmissionsAccepted, LastAcknowledged, HighestSource;
  }

  /** Numbers out of order are reported once, at the first call since the last reset that has one. */
  lemma DisorderIsReportedOnce(calls: seq<Call>, n: nat)
    requires n < |calls|
    ensures Sequence in NotifiedAt(calls, n) <==> IsOutOfOrder(calls, n) && !DisorderIsKnown(calls, n)
  {
    DisorderIsOnRecord(calls, n);
    FieldsAreCounters(calls, n);
    hide SubmissionsAccepted, LastAcknowledged, HighestReceived, HighestSource, DisorderIsKnown, After;
    SequenceStep(calls, n, After(calls, n));
  }

  /** Time-outs are reported by ticks only, and a call throws exactly for a counter that is no safe
      integer or goes back where it never may. */
  lemma OtherCallsStaySilent(calls: seq<Call>, n: nat)
    requires n < |calls|
    ensures !calls[n].event.Tick? ==> AckTimeout !in NotifiedAt(calls, n) && StalledInput !in NotifiedAt(calls, n)
    ensures Next(After(calls, n), calls[n]).threw <==>
              match calls[n].event
              case Receive(total) => total.None? || total.value < HighestReceived(calls, n)
              case SourceProgress(total) => total.None? || total.value < 0
              case _ => false
  {
    FieldsAreCounters(calls, n);
    hide SubmissionsAccepted, LastAcknowledged, HighestReceived, HighestSource, After;
  }
}
