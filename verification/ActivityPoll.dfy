/** The single-flight, fenced and cancellable poll (`createActivityPoll` of
    server/src/bun-driver.ts), under every interleaving of calls and completions. */
module ActivityPoll {
  import opened Wrappers
  import opened Text

  /** A sample settles with a value or with an error's message. */
  type Outcome<T> = Result<T, Text>

  datatype Event<T> = Refresh | Complete(flight: nat, outcome: Outcome<T>,
      at: real) | Cancel | Invalidate | Stop | Resume

  /** Flights are numbered as they start; `running` are the samples that have not settled. */
  datatype State<T> = State(latest: T, completedAt: Option<real>, error: Option<Text>, stopped: bool,
                            flight: Option<nat>, started: nat, running: set<nat>, released: set<nat>, aborted: set<nat>)

  function Initial<T>(empty: T): State<T> {
    State(empty, None, None, false, None, 0, {}, {}, {})
  }

  // ---- One event ------------------------------------------------------------------------------------

  /** The installed flight leaves the slot, aborted and released. */
  function Cancelled<T>(s: State<T>): State<T> {
    match s.flight
    case None => s
    case Some(flight) => s.(flight := None, aborted := s.aborted + {flight}, released := s.released + {flight})
  }

  function Settled<T>(s: State<T>, flight: nat, outcome: Outcome<T>, at: real): State<T> {
    var current := s.flight == Some(flight);
    var sampled :=
      if !current then s
      else if outcome.Ok? then s.(latest := outcome.value, completedAt := Some(at), error := None)
      else s.(error := Some(outcome.error));
    sampled.(flight := if current then None else s.flight, running := s.running - {flight},
        released := s.released + {flight})
  }

  function Next<T>(empty: T, s: State<T>, event: Event<T>): State<T> {
    match event
    case Refresh =>
      if s.stopped || s.flight.Some? then s
      else s.(flight := Some(s.started), running := s.running + {s.started}, started := s.started + 1)
    case Complete(flight, outcome, at) => Settled(s, flight, outcome, at)
    case Cancel => Cancelled(s)
    case Invalidate => Cancelled(s).(latest := empty, completedAt := None, error := None)
    case Stop => Cancelled(s).(stopped := true)
    case Resume => s.(stopped := false)
  }

  class ActivityPoll<T> {
    const empty: T
    var latest: T
    var completedAt: Option<real>
    var error: Option<Text>
    var stopped: bool
    var flight: Option<nat>
    var started: nat
    var running: set<nat>
    var released: set<nat>
    var aborted: set<nat>

    function Current(): State<T>
      reads this
    {
      State(latest, completedAt, error, stopped, flight, started, running, released, aborted)
    }

    constructor (empty: T)
      ensures this.empty == empty && Current() == Initial(empty)
    {
      this.empty, latest, completedAt, error, stopped := empty, empty, None, None, false;
      flight, started, running, released, aborted := None, 0, {}, {}, {};
    }

    method CancelFlight()
      modifies this
      ensures Current() == Next(empty, old(Current()), Cancel)
    {
      var previous := flight;
      flight := None;
      if previous.Some? {
        aborted, released := aborted + {previous.value}, released + {previous.value};
      }
    }

    method RefreshSample()
      modifies this
      ensures Current() == Next(empty, old(Current()), Refresh)
    {
      if stopped || flight.Some? {
        return;
      }
      flight, running, started := Some(started), running + {started}, started + 1;
    }

    /** The rest of `refresh`, when its sample settles. */
    method CompleteSample(current: nat, outcome: Outcome<T>, now: real)
      modifies this
      ensures Current() == Next(empty, old(Current()), Complete(current, outcome, now))
    {
      running := running - {current};
      match outcome {
        case Ok(value) =>
          if flight == Some(current) {
            latest, completedAt, error := value, Some(now), None;
          }
        case Err(cause) =>
          if flight == Some(current) {
            error := Some(cause);
          }
      }
      if flight == Some(current) {
        flight := None;
      }
      released := released + {current};
    }

    method InvalidateSample()
      modifies this
      ensures Current() == Next(empty, old(Current()), Invalidate)
    {
      CancelFlight();
      latest, completedAt, error := empty, None, None;
    }

    method StopPolling()
      modifies this
      ensures Current() == Next(empty, old(Current()), Stop)
    {
      stopped := true;
      CancelFlight();
    }

    method ResumePolling()
      modifies this
      ensures Current() == Next(empty, old(Current()), Resume)
    {
      stopped := false;
    }
  }

  // ---- Runs -----------------------------------------------------------------------------------------

  function After<T>(empty: T, events: seq<Event<T>>, n: nat): State<T>
    requires n <= |events|
  {
    if n == 0 then Initial(empty) else Next(empty, After(empty, events, n - 1), events[n - 1])
  }

  /** Samples settle at most once, and only after they were started. */
  ghost predicate Possible<T>(empty: T, events: seq<Event<T>>) {
    forall k: nat :: k < |events| && events[k].Complete? ==> events[k].flight in After(empty, events, k).running
  }

  /** Of all flights started only the installed one may be unreleased; it runs, and is not aborted. */
  ghost predicate Sane<T>(s: State<T>) {
    && (forall f :: f in s.running || f in s.released || f in s.aborted ==> f < s.started)
    && (forall f: nat :: f < s.started ==> (f !in s.released <==> s.flight == Some(f)))
    && (s.flight.Some? ==> s.flight.value in s.running && s.flight.value !in s.aborted)
    && (forall f: nat :: f < s.started ==> (f in s.running || f in s.aborted || f in s.released))
    && (s.stopped ==> s.flight.None?)
  }

  lemma NextIsSane<T>(empty: T, s: State<T>, event: Event<T>)
    requires Sane(s) && (event.Complete? ==> event.flight in s.running)
    ensures Sane(Next(empty, s, event))
  {
  }

  /** In every interleaving every flight that is not installed has released its waiters, and
      nothing is installed while stopped. */
  lemma {:induction false} RunsAreSane<T>(empty: T, events: seq<Event<T>>, n: nat)
    requires Possible(empty, events) && n <= |events|
    ensures Sane(After(empty, events, n))
  {
    if n > 0 {
      RunsAreSane(empty, events, n - 1);
      NextIsSane(empty, After(empty, events, n - 1), events[n - 1]);
    }
  }

  // ---- Which samples count ----------------------------------------------------------------------------

  /** Event `k` starts flight `f`. */
  predicate StartsFlight<T>(empty: T, events: seq<Event<T>>, k: nat, f: nat)
    requires k < |events|
  {
    After(empty, events, k).started == f && Next(empty, After(empty, events, k), events[k]).started == f + 1
  }

  /** The flight was started before event `n`, and has not settled since. */
  ghost predicate Unsettled<T>(empty: T, events: seq<Event<T>>, f: nat, n: nat)
    requires n <= |events|
  {
    exists k :: 0 <= k < n && UnsettledSince(empty, events, f, k, n)
  }

  ghost predicate UnsettledSince<T>(empty: T, events: seq<Event<T>>, f: nat, k: nat, n: nat)
    requires k < n <= |events|
  {
    StartsFlight(empty, events, k, f) && forall j :: k < j < n ==> !(events[j].Complete? && events[j].flight == f)
  }

  lemma OneEventUnsettled<T>(empty: T, events: seq<Event<T>>, f: nat, n: nat)
    requires 0 < n <= |events|
    ensures Unsettled(empty, events, f, n) <==>
              || StartsFlight(empty, events, n - 1, f)
              || (Unsettled(empty, events, f, n - 1) && !(events[n - 1].Complete? && events[n - 1].flight == f))
  {
    hide StartsFlight;
    if StartsFlight(empty, events, n - 1, f) {
      assert UnsettledSince(empty, events, f, n - 1, n);
    }
    if Unsettled(empty, events, f, n - 1) && !(events[n - 1].Complete? && events[n - 1].flight == f) {
      var k :| 0 <= k < n - 1 && UnsettledSince(empty, events, f, k, n - 1);
      assert UnsettledSince(empty, events, f, k, n);
    }
    if Unsettled(empty, events, f, n) && !StartsFlight(empty, events, n - 1, f) {
      var k :| 0 <= k < n && UnsettledSince(empty, events, f, k, n);
      assert UnsettledSince(empty, events, f, k, n - 1);
    }
  }

  lemma {:induction false} RunningMeansUnsettled<T>(empty: T, events: seq<Event<T>>, f: nat, n: nat)
    requires n <= |events|
    ensures f in After(empty, events, n).running <==> Unsettled(empty, events, f, n)
    ensures f in After(empty, events, n).running ==> f < After(empty, events, n).started
  {
    if n > 0 {
      RunningMeansUnsettled(empty, events, f, n - 1);
      OneEventUnsettled(empty, events, f, n);
      hide Unsettled;
    }
  }

  /** A run is possible exactly when each completion is of a flight that was started before it,
      and had not settled. */
  lemma PossibleMeaning<T>(empty: T, events: seq<Event<T>>)
    ensures Possible(empty, events) <==>
              forall k: nat :: k < |events| && events[k].Complete? ==> Unsettled(empty, events, events[k].flight, k)
  {
    forall k: nat | k < |events| && events[k].Complete?
      ensures events[k].flight in After(empty, events, k).running <==> Unsettled(empty, events, events[k].flight, k)
    {
      RunningMeansUnsettled(empty, events, events[k].flight, k);
    }
    hide Unsettled, After;
  }

  /** After any run, the waiters of a flight are still waiting exactly while it is installed: it
      has then neither settled nor been aborted, and polling is not stopped. */
  lemma WaitersAreReleased<T>(empty: T, events: seq<Event<T>>, f: nat, n: nat)
    requires Possible(empty, events) && n <= |events| && f < After(empty, events, n).started
    ensures var s := After(empty, events, n);
            && (f !in s.released <==> s.flight == Some(f))
            && (f !in s.released ==> f in s.running && f !in s.aborted && !s.stopped)
            && (f in s.released ==> f in s.aborted || f !in s.running)
  {
    RunsAreSane(empty, events, n);
    ReleasedFor(empty, events, f, n);
  }

  /** Waiters are released by an abort, or when the sample settles. */
  lemma {:induction false} ReleasedFor<T>(empty: T, events: seq<Event<T>>, f: nat, n: nat)
    requires Possible(empty, events) && n <= |events|
    ensures var s := After(empty, events, n); f in s.released ==> f in s.aborted || f !in s.running
  {
    if n > 0 {
      ReleasedFor(empty, events, f, n - 1);
      RunsAreSane(empty, events, n - 1);
    }
  }

  /** Cancelling in any form, or the flight's own completion. */
  predicate EndsFlight<T>(event: Event<T>, f: nat) {
    event.Cancel? || event.Invalidate? || event.Stop? || (event.Complete? && event.flight == f)
  }

  /** The flight was started, and nothing has ended it since. */
  ghost predicate Undisturbed<T>(empty: T, events: seq<Event<T>>, f: nat, n: nat)
    requires n <= |events|
  {
    exists k :: 0 <= k < n && UndisturbedSince(empty, events, f, k, n)
  }

  ghost predicate UndisturbedSince<T>(empty: T, events: seq<Event<T>>, f: nat, k: nat, n: nat)
    requires k < n <= |events|
  {
    StartsFlight(empty, events, k, f) && forall j :: k < j < n ==> !EndsFlight(events[j], f)
  }

  lemma OneEventOnFlight<T>(empty: T, s: State<T>, event: Event<T>, f: nat)
    requires Sane(s)
    ensures var t := Next(empty, s, event);
            t.flight == Some(f) <==>
              (s.started == f && t.started == f + 1) || (s.flight == Some(f) && !EndsFlight(event, f))
  {
  }

  lemma OneEventMore<T>(empty: T, events: seq<Event<T>>, f: nat, n: nat)
    requires 0 < n <= |events|
    ensures Undisturbed(empty, events, f, n) <==>
              StartsFlight(empty, events, n - 1, f)
                  || (Undisturbed(empty, events, f, n - 1) && !EndsFlight(events[n - 1], f))
  {
    hide StartsFlight, EndsFlight;
    if StartsFlight(empty, events, n - 1, f) {
      assert UndisturbedSince(empty, events, f, n - 1, n);
    }
    if Undisturbed(empty, events, f, n - 1) && !EndsFlight(events[n - 1], f) {
      var k :| 0 <= k < n - 1 && UndisturbedSince(empty, events, f, k, n - 1);
      assert UndisturbedSince(empty, events, f, k, n);
    }
    if Undisturbed(empty, events, f, n) && !StartsFlight(empty, events, n - 1, f) {
      var k :| 0 <= k < n && UndisturbedSince(empty, events, f, k, n);
      assert UndisturbedSince(empty, events, f, k, n - 1);
    }
  }

  /** The installed flight is the one that was started and not disturbed since. */
  lemma {:induction false} InstalledMeansUndisturbed<T>(empty: T, events: seq<Event<T>>, f: nat, n: nat)
    requires Possible(empty, events) && n <= |events|
    ensures After(empty, events, n).flight == Some(f) <==> Undisturbed(empty, events, f, n)
  {
    if n > 0 {
      InstalledMeansUndisturbed(empty, events, f, n - 1);
      RunsAreSane(empty, events, n - 1);
      OneEventOnFlight(empty, After(empty, events, n - 1), events[n - 1], f);
      hide Next, Undisturbed, Sane, EndsFlight;
      OneEventMore(empty, events, f, n);
    }
  }

  /** A completion counts when its flight was undisturbed until then. */
  ghost predicate Counts<T>(empty: T, events: seq<Event<T>>, k: nat)
    requires k < |events|
  {
    events[k].Complete? && Undisturbed(empty, events, events[k].flight, k)
  }

  /** The sample on show: the value and time of the last success that counts, back to the last
      invalidation; and the error of the last failure that counts, if no success came after it. */
  ghost function Shown<T>(empty: T, events: seq<Event<T>>, n: nat): (T, Option<real>, Option<Text>)
    requires n <= |events|
  {
    if n == 0 then (empty, None, None)
    else
      var before := Shown(empty, events, n - 1);
      var event := events[n - 1];
      if event.Invalidate? then (empty, None, None)
      else if !Counts(empty, events, n - 1) then before
      else if event.outcome.Ok? then (event.outcome.value, Some(event.at), None)
      else (before.0, before.1, Some(event.outcome.error))
  }

  /** Fencing: only completions of undisturbed flights ever change what is shown, whatever order
      samples settle in. */
  lemma {:induction false} OnlyUndisturbedSamplesShow<T>(empty: T, events: seq<Event<T>>, n: nat)
    requires Possible(empty, events) && n <= |events|
    ensures var s := After(empty, events, n); (s.latest, s.completedAt, s.error) == Shown(empty, events, n)
  {
    if n > 0 {
      OnlyUndisturbedSamplesShow(empty, events, n - 1);
      if events[n - 1].Complete? {
        InstalledMeansUndisturbed(empty, events, events[n - 1].flight, n - 1);
      }
      hide Undisturbed;
    }
  }

  /** A sample starts only when the poll is neither stopped nor in flight. */
  lemma StartsOnlyWhenIdle<T>(empty: T, events: seq<Event<T>>, n: nat)
    requires n < |events|
    ensures After(empty, events, n + 1).started != After(empty, events, n).started <==>
              events[n].Refresh? && !After(empty, events, n).stopped && After(empty, events, n).flight.None?
  {
  }

  /** Stopped means that the last of the stops and resumes was a stop. */
  predicate StoppedLast<T>(events: seq<Event<T>>, n: nat)
    requires n <= |events|
  {
    n > 0 && (events[n - 1].Stop? || (!events[n - 1].Resume? && StoppedLast(events, n - 1)))
  }

  lemma {:induction false} StoppedMeansStoppedLast<T>(empty: T, events: seq<Event<T>>, n: nat)
    requires n <= |events|
    ensures After(empty, events, n).stopped <==> StoppedLast(events, n)
  {
    if n > 0 {
      StoppedMeansStoppedLast(empty, events, n - 1);
    }
  }
}
