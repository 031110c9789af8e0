/** The state machine of core/src/search.ts: one state per node and repeat count, closed
    under empty transitions with tagged visit marks, advanced one code point at a time. */
module RegexEngine {
  import opened Wrappers
  import opened Text
  import opened RegexLite

  // ---- States --------------------------------------------------------------------------

  datatype Tables = Tables(
    stateToken: seq<nat>, stateRep: seq<nat>, firstStateForToken: seq<nat>, acceptState: nat)

  function RepCount(node: Node): nat {
    match node.quant.max
    case None => 2
    case Some(max) => max + 1
  }

  /** The tables number the pairs (node, repeats so far) of the first `n` nodes without gap,
      node by node. */
  ghost predicate TablesUpTo(nodes: seq<Node>, n: nat, tables: Tables)
    requires n <= |nodes|
  {
    && |tables.firstStateForToken| == n
    && |tables.stateToken| == |tables.stateRep| == tables.acceptState
    && (forall t :: 0 <= t < n ==>
          tables.firstStateForToken[t] + RepCount(nodes[t]) <= tables.acceptState)
    && (forall id :: 0 <= id < tables.acceptState ==>
          && tables.stateToken[id] < n
          && tables.stateRep[id] < RepCount(nodes[tables.stateToken[id]])
          && id == tables.firstStateForToken[tables.stateToken[id]] + tables.stateRep[id])
    && (forall t: nat, id: nat :: (t < n && InBlock(nodes, tables, t, id)) ==>
          tables.stateToken[id] == t && tables.stateRep[id] == id - tables.firstStateForToken[t])
  }

  ghost predicate InBlock(nodes: seq<Node>, tables: Tables, t: nat, id: nat)
    requires t < |nodes| && t < |tables.firstStateForToken|
  {
    tables.firstStateForToken[t] <= id < tables.firstStateForToken[t] + RepCount(nodes[t])
  }

  ghost predicate TablesFor(nodes: seq<Node>, tables: Tables) {
    TablesUpTo(nodes, |nodes|, tables)
  }

  method BuildStateTables(nodes: seq<Node>) returns (tables: Tables)
    ensures TablesFor(nodes, tables)
  {
    var stateToken: seq<nat>, stateRep: seq<nat>, firstStateForToken: seq<nat> := [], [], [];
    ghost var built := Tables([], [], [], 0);
    for i := 0 to |nodes|
      invariant built == Tables(stateToken, stateRep, firstStateForToken, |stateToken|)
      invariant TablesUpTo(nodes, i, built)
    {
      ghost var before := built;
      firstStateForToken := firstStateForToken + [|stateToken|];
      stateToken, stateRep := PushStates(stateToken, stateRep, i, RepCount(nodes[i]));
      built := Tables(stateToken, stateRep, firstStateForToken, |stateToken|);
      TablesGrow(nodes, i, before, built);
    }
    tables := Tables(stateToken, stateRep, firstStateForToken, |stateToken|);
  }

  method PushStates(stateToken: seq<nat>, stateRep: seq<nat>, i: nat, repCount: nat)
    returns (tokens: seq<nat>, reps: seq<nat>)
    requires |stateToken| == |stateRep|
    ensures |tokens| == |reps| == |stateToken| + repCount
    ensures stateToken <= tokens && stateRep <= reps
    ensures forall k :: |stateToken| <= k < |tokens| ==> tokens[k] == i && reps[k] == k - |stateToken|
  {
    tokens, reps := stateToken, stateRep;
    for rep := 0 to repCount
      invariant |tokens| == |reps| == |stateToken| + rep
      invariant stateToken <= tokens && stateRep <= reps
      invariant forall k :: |stateToken| <= k < |tokens| ==> tokens[k] == i && reps[k] == k - |stateToken|
    {
      tokens := tokens + [i];
      reps := reps + [rep];
    }
  }

  lemma TablesGrow(nodes: seq<Node>, n: nat, before: Tables, after: Tables)
    requires n < |nodes| && TablesUpTo(nodes, n, before)
    requires after.acceptState == |after.stateToken| == |after.stateRep| == before.acceptState + RepCount(nodes[n])
    requires after.firstStateForToken == before.firstStateForToken + [before.acceptState]
    requires before.stateToken <= after.stateToken && before.stateRep <= after.stateRep
    requires forall k :: before.acceptState <= k < after.acceptState ==>
               after.stateToken[k] == n && after.stateRep[k] == k - before.acceptState
    ensures TablesUpTo(nodes, n + 1, after)
  {
    forall t: nat, id: nat | t <= n && InBlock(nodes, after, t, id)
      ensures id < after.acceptState
      ensures after.stateToken[id] == t && after.stateRep[id] == id - after.firstStateForToken[t]
    {
      assert t < n ==> InBlock(nodes, before, t, id);
    }
  }

  // ---- What a state still accepts ----------------------------------------------------------

  ghost predicate Fits(p: Problem, tables: Tables) {
    WellFormed(p.nodes) && TablesFor(p.nodes, tables)
  }

  /** From node `t`, with `rep` repeats of it done, the rest of the pattern matches
      `[from, to)`. */
  ghost predicate Resumes(p: Problem, t: nat, rep: nat, from: nat, to: nat)
    requires t < |p.nodes|
  {
    if p.nodes[t].Consuming() then
      exists n: nat, mid: nat ::
        Allowed(p.nodes[t].quant, rep + n) && Run(p, t, from, n, mid) && Matches(p, t + 1, mid, to)
    else
      Matches(p, t, from, to)
  }

  ghost predicate StateResumes(p: Problem, tables: Tables, id: nat, from: nat, to: nat)
    requires Fits(p, tables)
  {
    if id < tables.acceptState then Resumes(p, tables.stateToken[id], tables.stateRep[id], from, to)
    else from == to
  }

  function NextRepeat(node: Node, repeat: nat): Option<nat> {
    match node.quant.max
    case None => Some(1)
    case Some(max) => if repeat < max then Some(repeat + 1) else None
  }

  /** The state can take the code point at `from` and then finish at `to`. */
  ghost predicate Consumes(p: Problem, t: nat, rep: nat, from: nat, to: nat)
    requires t < |p.nodes|
  {
    && p.nodes[t].Consuming()
    && Atom(p, t, from)
    && NextRepeat(p.nodes[t], rep).Some?
    && Resumes(p, t, NextRepeat(p.nodes[t], rep).value, After(p, from), to)
  }

  /** The state finishes at `to` without any further empty transition. */
  ghost predicate StateFinishes(p: Problem, tables: Tables, id: nat, from: nat, to: nat)
    requires Fits(p, tables)
  {
    if id < tables.acceptState then Consumes(p, tables.stateToken[id], tables.stateRep[id], from, to)
    else from == to
  }

  /** The state that begins what follows node `t`. */
  function StateAfter(p: Problem, tables: Tables, t: nat): nat
    requires t < |p.nodes| == |tables.firstStateForToken|
  {
    if t + 1 >= |p.nodes| then tables.acceptState else tables.firstStateForToken[t + 1]
  }

  /** The empty transition out of a state at `pos`, if it has one. */
  ghost function EmptyMove(p: Problem, tables: Tables, id: nat, pos: nat): Option<nat>
    requires Fits(p, tables)
  {
    if id >= tables.acceptState then None
    else
      var t := tables.stateToken[id];
      var open := match p.nodes[t]
        case StartAnchor(_) => pos == 0
        case EndAnchor(_) => pos == |p.line|
        case _ => tables.stateRep[id] >= p.nodes[t].quant.min;
      if open then Some(StateAfter(p, tables, t)) else None
  }

  lemma FirstStateIs(p: Problem, tables: Tables, t: nat)
    requires Fits(p, tables) && t < |p.nodes|
    ensures var id := tables.firstStateForToken[t];
            id < tables.acceptState && tables.stateToken[id] == t && tables.stateRep[id] == 0
  {
    assert RepCount(p.nodes[t]) > 0;
    assert InBlock(p.nodes, tables, t, tables.firstStateForToken[t]);
  }

  lemma FirstStateResumes(p: Problem, tables: Tables, t: nat, from: nat, to: nat)
    requires Fits(p, tables) && t < |p.nodes|
    ensures StateResumes(p, tables, tables.firstStateForToken[t], from, to) <==> Matches(p, t, from, to)
  {
    FirstStateIs(p, tables, t);
    if p.nodes[t].Consuming() {
      var q := p.nodes[t].quant;
      if Matches(p, t, from, to) {
        var n: nat, mid: nat :| Allowed(q, n) && Run(p, t, from, n, mid) && Matches(p, t + 1, mid, to);
        assert Allowed(q, 0 + n);
      }
    }
  }

  lemma StateAfterResumes(p: Problem, tables: Tables, t: nat, from: nat, to: nat)
    requires Fits(p, tables) && t < |p.nodes|
    ensures StateResumes(p, tables, StateAfter(p, tables, t), from, to) <==> Matches(p, t + 1, from, to)
  {
    if t + 1 < |p.nodes| {
      FirstStateResumes(p, tables, t + 1, from, to);
    }
  }

  /** A consuming state either stops repeating or takes one more code point. */
  lemma ConsumingStateUnfolds(p: Problem, t: nat, rep: nat, from: nat, to: nat)
    requires t < |p.nodes| && WellFormed(p.nodes) && p.nodes[t].Consuming() && rep < RepCount(p.nodes[t])
    ensures Resumes(p, t, rep, from, to) <==>
            (rep >= p.nodes[t].quant.min && Matches(p, t + 1, from, to)) || Consumes(p, t, rep, from, to)
  {
    if Resumes(p, t, rep, from, to) {
      ConsumingStateMoves(p, t, rep, from, to);
    }
    if rep >= p.nodes[t].quant.min && Matches(p, t + 1, from, to) {
      ResumesBy(p, t, rep, from, 0, from, to);
    }
    if Consumes(p, t, rep, from, to) {
      ConsumedResumes(p, t, rep, from, to);
    }
  }

  lemma ConsumingStateMoves(p: Problem, t: nat, rep: nat, from: nat, to: nat)
    requires t < |p.nodes| && WellFormedNode(p.nodes[t]) && p.nodes[t].Consuming() && rep < RepCount(p.nodes[t])
    requires Resumes(p, t, rep, from, to)
    ensures (rep >= p.nodes[t].quant.min && Matches(p, t + 1, from, to)) || Consumes(p, t, rep, from, to)
  {
    var n: nat, mid: nat :|
      Allowed(p.nodes[t].quant, rep + n) && Run(p, t, from, n, mid) && Matches(p, t + 1, mid, to);
    if n > 0 {
      ResumesBy(p, t, NextRepeat(p.nodes[t], rep).value, After(p, from), n - 1, mid, to);
    }
  }

  lemma ConsumedResumes(p: Problem, t: nat, rep: nat, from: nat, to: nat)
    requires t < |p.nodes| && WellFormedNode(p.nodes[t]) && p.nodes[t].Consuming() && rep < RepCount(p.nodes[t])
    requires Consumes(p, t, rep, from, to)
    ensures Resumes(p, t, rep, from, to)
  {
    var next := NextRepeat(p.nodes[t], rep).value;
    var n: nat, mid: nat :|
      Allowed(p.nodes[t].quant, next + n) && Run(p, t, After(p, from), n, mid) && Matches(p, t + 1, mid, to);
    ResumesBy(p, t, rep, from, n + 1, mid, to);
  }

  lemma ResumesBy(p: Problem, t: nat, rep: nat, from: nat, n: nat, mid: nat, to: nat)
    requires t < |p.nodes| && p.nodes[t].Consuming()
    requires Allowed(p.nodes[t].quant, rep + n) && Run(p, t, from, n, mid) && Matches(p, t + 1, mid, to)
    ensures Resumes(p, t, rep, from, to)
  {
  }

  /** A state accepts what it can finish at once and what its empty transition accepts. */
  lemma StateUnfolds(p: Problem, tables: Tables, id: nat, from: nat, to: nat)
    requires Fits(p, tables)
    ensures StateResumes(p, tables, id, from, to) <==>
            || StateFinishes(p, tables, id, from, to)
            || (EmptyMove(p, tables, id, from).Some?
                && StateResumes(p, tables, EmptyMove(p, tables, id, from).value, from, to))
  {
    if id < tables.acceptState {
      var t, rep := tables.stateToken[id], tables.stateRep[id];
      StateAfterResumes(p, tables, t, from, to);
      if p.nodes[t].Consuming() {
        ConsumingStateUnfolds(p, t, rep, from, to);
      }
    }
  }

  lemma ResumesForward(p: Problem, t: nat, rep: nat, from: nat, to: nat)
    requires t < |p.nodes| && Resumes(p, t, rep, from, to)
    ensures from <= to
  {
    if p.nodes[t].Consuming() {
      var n: nat, mid: nat :|
        Allowed(p.nodes[t].quant, rep + n) && Run(p, t, from, n, mid) && Matches(p, t + 1, mid, to);
      RunForward(p, t, from, n, mid);
      MatchesForward(p, t + 1, mid, to);
    } else {
      MatchesForward(p, t, from, to);
    }
  }

  lemma StateResumesForward(p: Problem, tables: Tables, id: nat, from: nat, to: nat)
    requires Fits(p, tables) && StateResumes(p, tables, id, from, to)
    ensures from <= to
  {
    if id < tables.acceptState {
      ResumesForward(p, tables.stateToken[id], tables.stateRep[id], from, to);
    }
  }

  // ---- Sets of states -----------------------------------------------------------------------

  ghost predicate SomeResumes(p: Problem, tables: Tables, states: seq<nat>, from: nat, to: nat)
    requires Fits(p, tables)
  {
    exists id :: id in states && StateResumes(p, tables, id, from, to)
  }

  ghost predicate SomeFinishes(p: Problem, tables: Tables, states: seq<nat>, from: nat, to: nat)
    requires Fits(p, tables)
  {
    exists id :: id in states && StateFinishes(p, tables, id, from, to)
  }

  /** Closed states finish exactly where the states they come from could resume to. */
  ghost predicate ClosureOf(p: Problem, tables: Tables, states: seq<nat>, closed: seq<nat>, pos: nat)
    requires Fits(p, tables)
  {
    forall to :: SomeFinishes(p, tables, closed, pos, to) <==> SomeResumes(p, tables, states, pos, to)
  }

  /** Advanced states resume, one code point on, exactly where closed ones finish beyond it. */
  ghost predicate AdvanceOf(p: Problem, tables: Tables, closed: seq<nat>, next: seq<nat>, pos: nat)
    requires Fits(p, tables) && pos < |p.line|
  {
    forall to :: pos < to ==>
      (SomeFinishes(p, tables, closed, pos, to) <==> SomeResumes(p, tables, next, After(p, pos), to))
  }

  /** No entry carries `tag` or a later one. */
  ghost predicate Unused(seen: array<nat>, tag: nat)
    reads seen
  {
    forall i :: 0 <= i < seen.Length ==> seen[i] < tag
  }

  /** The states that an empty closure keeps: consuming ones, and acceptance. */
  ghost predicate Kept(p: Problem, tables: Tables, id: nat)
    requires Fits(p, tables)
  {
    id < tables.acceptState ==> p.nodes[tables.stateToken[id]].Consuming()
  }

  ghost predicate InBounds(tables: Tables, states: seq<nat>) {
    forall id :: id in states ==> id <= tables.acceptState
  }

  ghost function Below(n: nat): (ids: set<nat>)
    ensures forall id: nat :: id in ids <==> id < n
  {
    if n == 0 then {} else Below(n - 1) + {n - 1}
  }

  /** Progress of a closure: what is marked is kept or passed on, and nothing is invented. */
  ghost predicate Closing(p: Problem, tables: Tables, pos: nat, initial: seq<nat>,
                          marked: set<nat>, stack: seq<nat>, out: seq<nat>)
    requires Fits(p, tables)
  {
    && InBounds(tables, stack) && InBounds(tables, out)
    && (forall id :: id in initial ==> id in marked || id in stack)
    && (forall id :: id in out ==> id in marked && Kept(p, tables, id))
    && (forall id :: id in marked && Kept(p, tables, id) ==> id in out)
    && (forall id :: id in marked && EmptyMove(p, tables, id, pos).Some? ==>
          EmptyMove(p, tables, id, pos).value in marked || EmptyMove(p, tables, id, pos).value in stack)
    && (forall id, to :: (id in marked || id in stack) && StateResumes(p, tables, id, pos, to) ==>
          SomeResumes(p, tables, initial, pos, to))
  }

  ghost function TokenOf(p: Problem, tables: Tables, id: nat): nat
    requires Fits(p, tables)
  {
    if id < tables.acceptState then tables.stateToken[id] else |p.nodes|
  }

  /** Empty transitions lead to later nodes, so following them reaches a kept state. */
  lemma {:induction false} ClosedStateFinishes(p: Problem, tables: Tables, pos: nat, initial: seq<nat>,
                                               marked: set<nat>, out: seq<nat>, id: nat, to: nat)
    requires Fits(p, tables) && Closing(p, tables, pos, initial, marked, [], out)
    requires id in marked && StateResumes(p, tables, id, pos, to)
    ensures SomeFinishes(p, tables, out, pos, to)
    decreases |p.nodes| - TokenOf(p, tables, id)
  {
    hide Resumes;
    StateUnfolds(p, tables, id, pos, to);
    if StateFinishes(p, tables, id, pos, to) {
      assert Kept(p, tables, id);
    } else {
      var next := EmptyMove(p, tables, id, pos).value;
      var t := tables.stateToken[id];
      if t + 1 < |p.nodes| {
        FirstStateIs(p, tables, t + 1);
      }
      ClosedStateFinishes(p, tables, pos, initial, marked, out, next, to);
    }
  }

  lemma ClosedKeepsLanguage(p: Problem, tables: Tables, pos: nat, initial: seq<nat>,
                            marked: set<nat>, out: seq<nat>, to: nat)
    requires Fits(p, tables) && Closing(p, tables, pos, initial, marked, [], out)
    ensures SomeFinishes(p, tables, out, pos, to) <==> SomeResumes(p, tables, initial, pos, to)
  {
    if SomeResumes(p, tables, initial, pos, to) {
      var id :| id in initial && StateResumes(p, tables, id, pos, to);
      ClosedStateFinishes(p, tables, pos, initial, marked, out, id, to);
    }
    if SomeFinishes(p, tables, out, pos, to) {
      var id :| id in out && StateFinishes(p, tables, id, pos, to);
      StateUnfolds(p, tables, id, pos, to);
    }
  }

  lemma CloseSkips(p: Problem, tables: Tables, pos: nat, initial: seq<nat>,
                   marked: set<nat>, stack: seq<nat>, id: nat, out: seq<nat>)
    requires Fits(p, tables) && Closing(p, tables, pos, initial, marked, stack + [id], out) && id in marked
    ensures Closing(p, tables, pos, initial, marked, stack, out)
  {
    assert forall k :: k in stack + [id] ==> k in stack || k in marked;
    assert forall k :: k in stack ==> k in stack + [id];
  }

  /** What the stack holds after `id` has been taken off it and marked. */
  ghost function Pushed(p: Problem, tables: Tables, pos: nat, marked: set<nat>, stack: seq<nat>, id: nat): seq<nat>
    requires Fits(p, tables)
  {
    var move := EmptyMove(p, tables, id, pos);
    if move.Some? && move.value !in marked + {id} then stack + [move.value] else stack
  }

  lemma CloseMarks(p: Problem, tables: Tables, pos: nat, initial: seq<nat>,
                   marked: set<nat>, stack: seq<nat>, id: nat, out: seq<nat>)
    requires Fits(p, tables) && Closing(p, tables, pos, initial, marked, stack + [id], out) && id !in marked
    requires id <= tables.acceptState
    ensures Closing(p, tables, pos, initial, marked + {id}, Pushed(p, tables, pos, marked, stack, id),
                    if Kept(p, tables, id) then out + [id] else out)
  {
    var stack' := Pushed(p, tables, pos, marked, stack, id);
    assert id in stack + [id];
    assert forall k :: k in stack + [id] <==> k in stack || k == id;
    assert forall k :: k in stack' ==> k in stack || EmptyMove(p, tables, id, pos) == Some(k);
    assert forall k :: k in stack ==> k in stack';
    var move := EmptyMove(p, tables, id, pos);
    if move.Some? {
      StateAfterInBounds(p, tables, tables.stateToken[id]);
      assert move.value in marked + {id} || move.value in stack';
      forall to | StateResumes(p, tables, move.value, pos, to) ensures SomeResumes(p, tables, initial, pos, to) {
        StateUnfolds(p, tables, id, pos, to);
      }
    }
  }

  lemma CloseStarts(p: Problem, tables: Tables, pos: nat, initial: seq<nat>)
    requires Fits(p, tables) && InBounds(tables, initial)
    ensures Closing(p, tables, pos, initial, {}, initial, [])
  {
  }

  lemma StateAfterInBounds(p: Problem, tables: Tables, t: nat)
    requires Fits(p, tables) && t < |p.nodes|
    ensures StateAfter(p, tables, t) <= tables.acceptState
  {
    if t + 1 < |p.nodes| {
      FirstStateIs(p, tables, t + 1);
    }
  }

  /** Close `initial` under empty transitions at `pos`; the kept states can finish exactly
      where the initial ones could resume to. */
  method EpsilonClose(p: Problem, tables: Tables, initial: seq<nat>, pos: nat,
                      seen: array<nat>, visitTag: nat) returns (out: seq<nat>)
    requires Fits(p, tables) && seen.Length == tables.acceptState + 1 && InBounds(tables, initial)
    requires Unused(seen, visitTag)
    modifies seen
    ensures Unused(seen, visitTag + 1)
    ensures InBounds(tables, out) && ClosureOf(p, tables, initial, out, pos)
  {
    hide SomeFinishes, SomeResumes, StateResumes;
    out := [];
    var stack := initial;
    ghost var marked: set<nat> := {};
    CloseStarts(p, tables, pos, initial);
    while |stack| > 0
      invariant forall i :: 0 <= i < seen.Length ==> seen[i] <= visitTag
      invariant forall i :: 0 <= i < seen.Length ==> (seen[i] == visitTag <==> i in marked)
      invariant Closing(p, tables, pos, initial, marked, stack, out)
      decreases Below(seen.Length) - marked, |stack|
    {
      var id := stack[|stack| - 1];
      ghost var popped, before := stack, marked;
      assert id in popped;
      stack := stack[..|stack| - 1];
      assert popped == stack + [id];
      if seen[id] == visitTag {
        CloseSkips(p, tables, pos, initial, marked, stack, id, out);
        continue;
      }
      CloseMarks(p, tables, pos, initial, marked, stack, id, out);
      assert id in Below(seen.Length) - marked;
      ghost var expected := Pushed(p, tables, pos, marked, stack, id);
      seen[id] := visitTag;
      marked := marked + {id};

      if id == tables.acceptState {
        out := out + [id];
        continue;
      }
      var tokenIndex := tables.stateToken[id];
      var node := p.nodes[tokenIndex];
      var open: bool;
      match node {
        case StartAnchor(_) =>
          open := pos == 0;
        case EndAnchor(_) =>
          open := pos == |p.line|;
        case _ =>
          // Keep the consuming state available.
          out := out + [id];
          open := tables.stateRep[id] >= node.quant.min;
      }
      StateAfterInBounds(p, tables, tokenIndex);
      var after := StateAfter(p, tables, tokenIndex);
      if open && seen[after] != visitTag {
        stack := stack + [after];
      }
      assert stack == expected;
    }
    forall to ensures SomeFinishes(p, tables, out, pos, to) <==> SomeResumes(p, tables, initial, pos, to) {
      ClosedKeepsLanguage(p, tables, pos, initial, marked, out, to);
    }
  }

  const LAST_TAG: nat := 0xffff_fffe

  /** The next tag: unused in `seen`, which is wiped when 32-bit tags run out. */
  method AdvanceVisitTag(seen: array<nat>, visitTag: nat) returns (tag: nat)
    requires Unused(seen, visitTag + 1)
    modifies seen
    ensures Unused(seen, tag) && 0 < tag <= LAST_TAG
  {
    if visitTag >= LAST_TAG {
      forall i | 0 <= i < seen.Length {
        seen[i] := 0;
      }
      return 1;
    }
    return visitTag + 1;
  }

  /** The state reached from `id` over the code point at `pos`, if it can take it. */
  function Successor(p: Problem, tables: Tables, id: nat, pos: nat): Option<nat>
    requires Fits(p, tables) && pos < |p.line|
  {
    if id >= tables.acceptState then None
    else
      var t := tables.stateToken[id];
      var node := p.nodes[t];
      if !node.Consuming() || !Atom(p, t, pos) then None
      else
        match NextRepeat(node, tables.stateRep[id])
        case None => None
        case Some(rep) => Some(tables.firstStateForToken[t] + rep)
  }

  lemma SuccessorResumes(p: Problem, tables: Tables, id: nat, pos: nat, to: nat)
    requires Fits(p, tables) && pos < |p.line| && pos < to
    ensures var next := Successor(p, tables, id, pos);
            && (next.Some? ==> next.value <= tables.acceptState)
            && (StateFinishes(p, tables, id, pos, to) <==>
                next.Some? && StateResumes(p, tables, next.value, After(p, pos), to))
  {
    if Successor(p, tables, id, pos).Some? {
      var t := tables.stateToken[id];
      assert WellFormedNode(p.nodes[t]);
      assert InBlock(p.nodes, tables, t, Successor(p, tables, id, pos).value);
    }
  }

  /** Advance every kept state over one code point, without repeating a state. */
  method AdvanceStates(p: Problem, tables: Tables, states: seq<nat>, pos: nat,
                       transitionSeen: array<nat>, transitionTag: nat) returns (nextStates: seq<nat>)
    requires Fits(p, tables) && transitionSeen.Length == tables.acceptState + 1 && pos < |p.line|
    requires InBounds(tables, states)
    requires Unused(transitionSeen, transitionTag)
    modifies transitionSeen
    ensures Unused(transitionSeen, if |nextStates| == 0 then transitionTag else transitionTag + 1)
    ensures InBounds(tables, nextStates) && AdvanceOf(p, tables, states, nextStates, pos)
  {
    hide SomeFinishes, SomeResumes, StateResumes, StateFinishes;
    nextStates := [];
    ghost var origins: seq<nat> := [];
    for j := 0 to |states|
      invariant InBounds(tables, nextStates)
      invariant forall i :: 0 <= i < transitionSeen.Length ==>
                  transitionSeen[i] < transitionTag || (transitionSeen[i] == transitionTag && i in nextStates)
      invariant forall k :: 0 <= k < j && Successor(p, tables, states[k], pos).Some? ==>
                  Successor(p, tables, states[k], pos).value in nextStates
      invariant |origins| == |nextStates|
      invariant forall n :: 0 <= n < |nextStates| ==>
                  origins[n] < |states| && Successor(p, tables, states[origins[n]], pos) == Some(nextStates[n])
    {
      var id := states[j];
      assert id in states;
      if id != tables.acceptState {
        var tokenIndex := tables.stateToken[id];
        var node := p.nodes[tokenIndex];
        if node.Consuming() && ConsumeMatches(node, CodePoint(p.line, pos), p.matcher) {
          var progressed := NextRepeat(node, tables.stateRep[id]);
          if progressed.Some? {
            var nextId := tables.firstStateForToken[tokenIndex] + progressed.value;
            SuccessorResumes(p, tables, id, pos, pos + 1);
            assert Successor(p, tables, states[j], pos) == Some(nextId);
            if transitionSeen[nextId] != transitionTag {
              transitionSeen[nextId] := transitionTag;
              nextStates := nextStates + [nextId];
              origins := origins + [j];
            }
          }
        }
      }
    }
    forall to | pos < to
      ensures SomeFinishes(p, tables, states, pos, to) <==> SomeResumes(p, tables, nextStates, After(p, pos), to)
    {
      AdvancedKeepsLanguage(p, tables, states, pos, nextStates, origins, to);
    }
  }

  lemma AdvancedKeepsLanguage(p: Problem, tables: Tables, states: seq<nat>, pos: nat,
                              nextStates: seq<nat>, origins: seq<nat>, to: nat)
    requires Fits(p, tables) && pos < |p.line| && pos < to
    requires forall k :: 0 <= k < |states| && Successor(p, tables, states[k], pos).Some? ==>
               Successor(p, tables, states[k], pos).value in nextStates
    requires |origins| == |nextStates|
    requires forall n :: 0 <= n < |nextStates| ==>
               origins[n] < |states| && Successor(p, tables, states[origins[n]], pos) == Some(nextStates[n])
    ensures SomeFinishes(p, tables, states, pos, to) <==> SomeResumes(p, tables, nextStates, After(p, pos), to)
  {
    if SomeFinishes(p, tables, states, pos, to) {
      var id :| id in states && StateFinishes(p, tables, id, pos, to);
      SuccessorResumes(p, tables, id, pos, to);
    }
    if SomeResumes(p, tables, nextStates, After(p, pos), to) {
      var id :| id in nextStates && StateResumes(p, tables, id, After(p, pos), to);
      var n :| 0 <= n < |nextStates| && nextStates[n] == id;
      SuccessorResumes(p, tables, states[origins[n]], pos, to);
      assert states[origins[n]] in states;
    }
  }
}
