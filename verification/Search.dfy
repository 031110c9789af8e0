/** Searching lines with a regex-lite pattern (core/src/search.ts): the scan of one line with
    its early exits, and the bounded list of results over all lines. */
module Search {
  import opened Wrappers
  import opened Text
  import opened RegexLite
  import opened RegexEngine
  import opened RegexFilters
  import opened TerminalControls

  const MAX_MATCHES: nat := 10_000

  datatype SearchMatch = SearchMatch(line: nat, start: nat, end: nat)

  function Placed(line: nat, spans: seq<Span>): (placed: seq<SearchMatch>)
    ensures |placed| == |spans|
  {
    seq(|spans|, i requires 0 <= i < |spans| => SearchMatch(line, spans[i].start, spans[i].end))
  }

  // ---- One start --------------------------------------------------------------------------------

  /** `bestEnd` is the farthest end of a match from `start` seen below `limit`, or -1. */
  ghost predicate BestBelow(p: Problem, start: nat, limit: nat, bestEnd: int) {
    && (bestEnd == -1 || (start < bestEnd < limit && Matches(p, 0, start, bestEnd)))
    && forall e: nat :: start < e < limit && Matches(p, 0, start, e) ==> e <= bestEnd
  }

  /** The states hold exactly the ways in which matches from `start` can still go on at `pos`. */
  ghost predicate Tracks(p: Problem, tables: Tables, start: nat, states: seq<nat>, pos: nat)
    requires Fits(p, tables)
  {
    forall to: nat :: pos <= to ==> (Matches(p, 0, start, to) <==> SomeResumes(p, tables, states, pos, to))
  }

  lemma TracksInitially(p: Problem, tables: Tables, start: nat)
    requires Fits(p, tables)
    ensures Tracks(p, tables, start, [tables.firstStateForToken[0]], start)
    ensures InBounds(tables, [tables.firstStateForToken[0]])
  {
    var first := tables.firstStateForToken[0];
    FirstStateIs(p, tables, 0);
    forall to: nat ensures Matches(p, 0, start, to) <==> SomeResumes(p, tables, [first], start, to) {
      FirstStateResumes(p, tables, 0, start, to);
      assert first in [first];
    }
  }

  /** Acceptance shows among closed states exactly when a match ends here. */
  lemma AcceptanceIsAMatch(p: Problem, tables: Tables, start: nat, states: seq<nat>, closed: seq<nat>, pos: nat)
    requires Fits(p, tables) && Tracks(p, tables, start, states, pos) && InBounds(tables, closed)
    requires ClosureOf(p, tables, states, closed, pos)
    ensures tables.acceptState in closed <==> Matches(p, 0, start, pos)
  {
    if tables.acceptState in closed {
      assert StateFinishes(p, tables, tables.acceptState, pos, pos);
      assert SomeFinishes(p, tables, closed, pos, pos);
    }
    if SomeFinishes(p, tables, closed, pos, pos) {
      var id :| id in closed && StateFinishes(p, tables, id, pos, pos);
      if id != tables.acceptState {
        var t := tables.stateToken[id];
        var rep := NextRepeat(p.nodes[t], tables.stateRep[id]).value;
        ResumesForward(p, t, rep, After(p, pos), pos);
      }
    }
  }

  lemma NothingFinishes(p: Problem, tables: Tables, start: nat, states: seq<nat>, closed: seq<nat>, pos: nat)
    requires Fits(p, tables) && Tracks(p, tables, start, states, pos)
    requires ClosureOf(p, tables, states, closed, pos)
    requires pos == |p.line| || closed == []
    ensures forall to: nat :: pos < to ==> !Matches(p, 0, start, to)
  {
    forall to: nat | pos < to ensures !Matches(p, 0, start, to) {
      assert !SomeFinishes(p, tables, closed, pos, to);
    }
  }

  lemma TracksOnward(p: Problem, tables: Tables, start: nat, states: seq<nat>, closed: seq<nat>,
                     next: seq<nat>, pos: nat)
    requires Fits(p, tables) && pos < |p.line| && Tracks(p, tables, start, states, pos)
    requires ClosureOf(p, tables, states, closed, pos)
    requires AdvanceOf(p, tables, closed, next, pos)
    ensures Tracks(p, tables, start, next, After(p, pos))
    ensures forall to: nat :: pos < to < After(p, pos) ==> !Matches(p, 0, start, to)
    ensures next == [] ==> forall to: nat :: pos < to ==> !Matches(p, 0, start, to)
  {
    forall to: nat | pos < to && Matches(p, 0, start, to)
      ensures After(p, pos) <= to && SomeResumes(p, tables, next, After(p, pos), to)
    {
      assert SomeFinishes(p, tables, closed, pos, to);
      var id :| id in next && StateResumes(p, tables, id, After(p, pos), to);
      StateResumesForward(p, tables, id, After(p, pos), to);
    }
  }

  /** One position of the scan: whether a match ends here, and the states behind the code
      point at `pos`, none when no match can go on. */
  method StepAt(p: Problem, tables: Tables, ghost start: nat, states: seq<nat>, pos: nat,
                seen: array<nat>, transitionSeen: array<nat>, visitTag0: nat, transitionTag0: nat)
    returns (accepted: bool, nextStates: seq<nat>, visitTag: nat, transitionTag: nat)
    requires Fits(p, tables) && pos <= |p.line|
    requires InBounds(tables, states) && Tracks(p, tables, start, states, pos)
    requires seen.Length == transitionSeen.Length == tables.acceptState + 1 && seen != transitionSeen
    requires Unused(seen, visitTag0) && Unused(transitionSeen, transitionTag0)
    modifies seen, transitionSeen
    ensures Unused(seen, visitTag) && Unused(transitionSeen, transitionTag)
    ensures accepted <==> Matches(p, 0, start, pos)
    ensures if |nextStates| == 0 then
              forall to: nat :: pos < to ==> !Matches(p, 0, start, to)
            else
              && pos < |p.line|
              && InBounds(tables, nextStates) && Tracks(p, tables, start, nextStates, After(p, pos))
              && forall to: nat :: pos < to < After(p, pos) ==> !Matches(p, 0, start, to)
  {
    transitionTag := transitionTag0;
    var closed := EpsilonClose(p, tables, states, pos, seen, visitTag0);
    visitTag := AdvanceVisitTag(seen, visitTag0);
    AcceptanceIsAMatch(p, tables, start, states, closed, pos);
    accepted := tables.acceptState in closed;
    if pos == |p.line| || |closed| == 0 {
      NothingFinishes(p, tables, start, states, closed, pos);
      nextStates := [];
      return;
    }
    nextStates := AdvanceStates(p, tables, closed, pos, transitionSeen, transitionTag);
    TracksOnward(p, tables, start, states, closed, nextStates, pos);
    if |nextStates| > 0 {
      transitionTag := AdvanceVisitTag(transitionSeen, transitionTag);
    }
  }

  /** The farthest end of a match from `start`, or -1. */
  method LongestFrom(p: Problem, tables: Tables, start: nat, seen: array<nat>, transitionSeen: array<nat>,
                     visitTag0: nat, transitionTag0: nat)
    returns (bestEnd: int, visitTag: nat, transitionTag: nat)
    requires Fits(p, tables) && start < |p.line|
    requires seen.Length == transitionSeen.Length == tables.acceptState + 1 && seen != transitionSeen
    requires Unused(seen, visitTag0) && Unused(transitionSeen, transitionTag0)
    modifies seen, transitionSeen
    ensures Unused(seen, visitTag) && Unused(transitionSeen, transitionTag)
    ensures bestEnd == -1 || start < bestEnd
    ensures Farthest(p, start, |p.line|) == if bestEnd > start then bestEnd else start
  {
    hide Tracks;
    visitTag, transitionTag := visitTag0, transitionTag0;
    var states := [tables.firstStateForToken[0]];
    TracksInitially(p, tables, start);
    bestEnd := -1;
    var pos := start;
    while true
      invariant start <= pos <= |p.line|
      invariant InBounds(tables, states) && Tracks(p, tables, start, states, pos)
      invariant BestBelow(p, start, pos, bestEnd)
      invariant Unused(seen, visitTag) && Unused(transitionSeen, transitionTag)
      decreases |p.line| - pos
    {
      var accepted;
      accepted, states, visitTag, transitionTag :=
        StepAt(p, tables, start, states, pos, seen, transitionSeen, visitTag, transitionTag);
      if pos > start && accepted {
        bestEnd := pos;
      }
      if |states| == 0 { break; }
      pos := pos + CodePointWidth(p.line, pos);
    }
  }

  // ---- One line -----------------------------------------------------------------------------------

  class LimitState {
    var limitReached: bool
    var matches: seq<SearchMatch>

    constructor ()
      ensures !limitReached && matches == []
    {
      limitReached := false;
      matches := [];
    }
  }

  /** The first `MAX_MATCHES` of `all`. */
  function Capped(all: seq<SearchMatch>): (kept: seq<SearchMatch>)
    ensures |kept| <= MAX_MATCHES && kept <= all && (|kept| == MAX_MATCHES || kept == all)
  {
    if |all| <= MAX_MATCHES then all else all[..MAX_MATCHES]
  }

  lemma NoMatchesFrom(p: Problem, start: nat)
    requires Aligned(p.line, start)
    requires forall s: nat, e: nat :: start <= s ==> !IsMatch(p, s, e)
    ensures MatchesFrom(p, start) == []
  {
    MatchesFromIsLeftmostLongest(p, start);
    LeftmostLongestIsUnique(p, start, MatchesFrom(p, start), []);
  }

  /** A line that fails an early exit has no match. */
  lemma FilteredLineHasNoMatch(p: Problem, lastStart: nat)
    requires |p.line| > 0 ==> IsLastStart(p.line, lastStart)
    requires !Embeds(p, 0, 0) ||
             (|p.line| > 0 && HasEndAnchor(p.nodes, 0)
              && forall j :: 0 <= j < |p.nodes| ==> !TakesLast(p, j, lastStart))
    ensures MatchesFrom(p, 0) == []
  {
    if !Embeds(p, 0, 0) {
      NoEmbeddingNoMatch(p);
    } else {
      NoTakerNoMatch(p, lastStart);
    }
    NoMatchesFrom(p, 0);
  }

  /** A start that a start anchor or the last mandatory atom rules out, and every later one, has no match. */
  lemma RuledOutStartHasNoMatch(p: Problem, start: nat, startUpperBound: Option<int>)
    requires Aligned(p.line, start)
    requires startUpperBound.Some? ==>
               exists t :: 0 <= t < |p.nodes| && Mandatory(p.nodes[t]) && IsLastAtom(p, t, startUpperBound.value)
    requires || (start > 0 && exists i :: 0 <= i < |p.nodes| && p.nodes[i].StartAnchor?)
             || (startUpperBound.Some? && start > startUpperBound.value)
    ensures MatchesFrom(p, start) == []
  {
    if startUpperBound.Some? && start > startUpperBound.value {
      var t :| 0 <= t < |p.nodes| && Mandatory(p.nodes[t]) && IsLastAtom(p, t, startUpperBound.value);
      NoMatchAfterLastAtom(p, t, startUpperBound.value);
    } else {
      var i :| 0 <= i < |p.nodes| && p.nodes[i].StartAnchor?;
      forall s: nat, e: nat | start <= s ensures !IsMatch(p, s, e) {
        if IsMatch(p, s, e) {
          StartAnchorStartsAtZero(p, 0, i, s, e);
        }
      }
    }
    NoMatchesFrom(p, start);
  }

  /** The visit marks of one search, reused from line to line. */
  ghost predicate Scratch(tables: Tables, seen: array<nat>, transitionSeen: array<nat>) {
    seen.Length == transitionSeen.Length == tables.acceptState + 1 && seen != transitionSeen
  }

  method FillZero(seen: array<nat>)
    modifies seen
    ensures Unused(seen, 1)
  {
    for i := 0 to seen.Length
      invariant forall k :: 0 <= k < i ==> seen[k] < 1
    {
      seen[i] := 0;
    }
  }

  lemma PlacedSplits(line: nat, span: Span, rest: seq<Span>)
    ensures Placed(line, [span] + rest) == [SearchMatch(line, span.start, span.end)] + Placed(line, rest)
  {
  }

  /** The matches of one line, found by the machine with all its early exits, are the line's
      leftmost longest ones; the list keeps the first `MAX_MATCHES` and notes any excess. */
  method CollectRegexMatches(p: Problem, lineIndex: nat, limitState: LimitState, tables: Tables,
                             seen: array<nat>, transitionSeen: array<nat>)
    requires Fits(p, tables) && Scratch(tables, seen, transitionSeen)
    requires !limitState.limitReached && |limitState.matches| <= MAX_MATCHES
    modifies limitState, seen, transitionSeen
    ensures var all := old(limitState.matches) + Placed(lineIndex, MatchesFrom(p, 0));
            limitState.matches == Capped(all) && limitState.limitReached == (|all| > MAX_MATCHES)
  {
    hide IsLongest, IsMatch, TablesFor, WellFormed, IsLastAtom;
    ghost var before := limitState.matches;
    var exit := LineIsRuledOut(p);
    if exit {
      assert before + Placed(lineIndex, []) == before;
      return;
    }
    var visitTag, transitionTag := 1, 1;
    FillZero(seen);
    FillZero(transitionSeen);
    var startUpperBound := LatestPossibleStart(p);
    var startAnchored := ContainsStartAnchor(p.nodes);
    var start := 0;
    while start < |p.line|
      invariant 0 <= start <= |p.line| && Aligned(p.line, start)
      invariant Unused(seen, visitTag) && Unused(transitionSeen, transitionTag)
      invariant !limitState.limitReached && |limitState.matches| <= MAX_MATCHES
      invariant limitState.matches + Placed(lineIndex, MatchesFrom(p, start))
             == before + Placed(lineIndex, MatchesFrom(p, 0))
    {
      if (startAnchored && start > 0) || (startUpperBound.Some? && start > startUpperBound.value) {
        RuledOutStartHasNoMatch(p, start, startUpperBound);
        break;
      }
      var bestEnd;
      bestEnd, visitTag, transitionTag := LongestFrom(p, tables, start, seen, transitionSeen, visitTag, transitionTag);
      FarthestIsLongest(p, start);
      if bestEnd > start {
        PlacedSplits(lineIndex, Span(start, bestEnd), MatchesFrom(p, bestEnd));
        if |limitState.matches| >= MAX_MATCHES {
          limitState.limitReached := true;
          return;
        }
        limitState.matches := limitState.matches + [SearchMatch(lineIndex, start, bestEnd)];
        start := bestEnd;
      } else {
        StepAligned(p.line, start);
        start := start + CodePointWidth(p.line, start);
      }
    }
    assert MatchesFrom(p, start) == [];
  }

  /** The two early exits for a whole line. */
  method LineIsRuledOut(p: Problem) returns (exit: bool)
    ensures exit ==> MatchesFrom(p, 0) == []
  {
    var possible := RequiredSequencePossible(p);
    ghost var last := LastStart(p.line);
    if !possible {
      FilteredLineHasNoMatch(p, last);
      return true;
    }
    var endAnchored := ContainsEndAnchor(p.nodes);
    if endAnchored {
      possible := EndAnchorCanMatchLineEnd(p);
      if !possible {
        FilteredLineHasNoMatch(p, last);
        return true;
      }
    }
    return false;
  }

  /** Where the last code point of a line starts. */
  ghost function LastStart(line: Text): (last: nat)
    ensures |line| > 0 ==> IsLastStart(line, last)
  {
    if |line| == 0 then 0
    else if IsSurrogatePairAt(line, |line| - 2) then |line| - 2
    else |line| - 1
  }

  // ---- All lines ------------------------------------------------------------------------------------

  function LineProblem(nodes: seq<Node>, matcher: Matcher, raw: Text): Problem {
    Problem(nodes, matcher, VisibleText(raw, Stripper))
  }

  /** The matches of every line in turn, from line `from` on. */
  ghost function AllMatches(nodes: seq<Node>, matcher: Matcher, rawLines: seq<Text>, from: nat): seq<SearchMatch>
    decreases |rawLines| - from
  {
    if from >= |rawLines| then
      []
    else
      var here := Placed(from, MatchesFrom(LineProblem(nodes, matcher, rawLines[from]), 0));
      here + AllMatches(nodes, matcher, rawLines, from + 1)
  }

  lemma CappedStays(before: seq<SearchMatch>, here: seq<SearchMatch>, rest: seq<SearchMatch>)
    ensures before + (here + rest) == (before + here) + rest
    ensures |before + here| > MAX_MATCHES ==> Capped(before + here) == Capped(before + (here + rest))
    ensures |before + here| <= MAX_MATCHES ==> Capped(before + here) == before + here
  {
  }

  /** Regex-lite search: the first ten thousand matches in reading order, and whether there
      were more. */
  method SearchRegex(rawLines: seq<Text>, nodes: seq<Node>, matcher: Matcher)
    returns (matches: seq<SearchMatch>, limitReached: bool)
    requires WellFormed(nodes)
    ensures var all := AllMatches(nodes, matcher, rawLines, 0);
            matches == Capped(all) && limitReached == (|all| > MAX_MATCHES)
  {
    hide MatchesFrom, TablesFor, WellFormed, Capped;
    var limitState := new LimitState();
    var tables := BuildStateTables(nodes);
    var seen := new nat[tables.acceptState + 1];
    var transitionSeen := new nat[tables.acceptState + 1];
    var line := 0;
    while line < |rawLines| && !limitState.limitReached
      invariant 0 <= line <= |rawLines|
      invariant !limitState.limitReached ==>
                  && |limitState.matches| <= MAX_MATCHES
                  && limitState.matches + AllMatches(nodes, matcher, rawLines, line) ==
                      AllMatches(nodes, matcher, rawLines, 0)
      invariant limitState.limitReached ==>
                  && |AllMatches(nodes, matcher, rawLines, 0)| > MAX_MATCHES
                  && limitState.matches == Capped(AllMatches(nodes, matcher, rawLines, 0))
    {
      ghost var before := limitState.matches;
      var visible := StripTerminalControls(rawLines[line]);
      var p := Problem(nodes, matcher, visible);
      CollectRegexMatches(p, line, limitState, tables, seen, transitionSeen);
      CappedStays(before, Placed(line, MatchesFrom(p, 0)), AllMatches(nodes, matcher, rawLines, line + 1));
      line := line + 1;
    }
    return limitState.matches, limitState.limitReached;
  }
}
