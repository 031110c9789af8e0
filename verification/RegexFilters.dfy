/** The three early exits of core/src/search.ts: cheap conditions that every match meets, so
    that a line or a start which fails one needs no state machine at all. */
module RegexFilters {
  import opened Wrappers
  import opened Text
  import opened RegexLite

  predicate Mandatory(node: Node) {
    node.Consuming() && node.quant.min > 0
  }

  // ---- The required sequence --------------------------------------------------------------

  /** The mandatory atoms of the nodes from `t` on occur in the line, in order, from `cursor` on. */
  ghost predicate Embeds(p: Problem, t: nat, cursor: nat)
    decreases |p.nodes| - t, 0
  {
    t < |p.nodes| ==>
      EmbedsRepeats(p, t, if Mandatory(p.nodes[t]) then p.nodes[t].quant.min else 0, cursor)
  }

  /** Likewise, where node `t` is still wanted `wanted` times. */
  ghost predicate EmbedsRepeats(p: Problem, t: nat, wanted: nat, cursor: nat)
    requires t < |p.nodes|
    decreases |p.nodes| - t - 1, wanted + 1, 0
  {
    if wanted == 0 then Embeds(p, t + 1, cursor)
    else exists at: nat :: cursor <= at && EmbedsAt(p, t, wanted, at)
  }

  /** The first of the `wanted` occurrences of node `t` is at `at`. */
  ghost predicate EmbedsAt(p: Problem, t: nat, wanted: nat, at: nat)
    requires t < |p.nodes| && wanted > 0
    decreases |p.nodes| - t - 1, wanted, 1
  {
    Aligned(p.line, at) && Atom(p, t, at) && EmbedsRepeats(p, t, wanted - 1, After(p, at))
  }

  lemma {:induction false} EmbedsEarlier(p: Problem, t: nat, early: nat, late: nat)
    requires early <= late && Embeds(p, t, late)
    ensures Embeds(p, t, early)
    decreases |p.nodes| - t, 0
  {
    if t < |p.nodes| {
      EmbedsRepeatsEarlier(p, t, if Mandatory(p.nodes[t]) then p.nodes[t].quant.min else 0, early, late);
    }
  }

  lemma {:induction false} EmbedsRepeatsEarlier(p: Problem, t: nat, wanted: nat, early: nat, late: nat)
    requires t < |p.nodes| && early <= late && EmbedsRepeats(p, t, wanted, late)
    ensures EmbedsRepeats(p, t, wanted, early)
    decreases |p.nodes| - t - 1, wanted + 1
  {
    if wanted == 0 {
      EmbedsEarlier(p, t + 1, early, late);
    } else {
      var at := FirstOccurrence(p, t, wanted, late);
    }
  }

  /** `found` is the first code point from `from` on that node `t` accepts, or the end of the line. */
  ghost predicate IsFirstAtom(p: Problem, t: nat, from: nat, found: nat)
    requires t < |p.nodes|
  {
    && from <= found <= |p.line| && Aligned(p.line, found)
    && (found < |p.line| ==> Atom(p, t, found))
    && forall at: nat :: from <= at < found && Aligned(p.line, at) ==> !Atom(p, t, at)
  }

  /** Taking the first acceptable code point never costs an embedding: it comes no later than
      any other. */
  lemma GreedyIsExact(p: Problem, t: nat, wanted: nat, cursor: nat, found: nat)
    requires t < |p.nodes| && wanted > 0 && IsFirstAtom(p, t, cursor, found)
    ensures EmbedsRepeats(p, t, wanted, cursor) <==>
            found < |p.line| && EmbedsRepeats(p, t, wanted - 1, After(p, found))
  {
    if EmbedsRepeats(p, t, wanted, cursor) {
      var at := FirstOccurrence(p, t, wanted, cursor);
      AfterFirst(p, t, found, at);
      EmbedsRepeatsEarlier(p, t, wanted - 1, After(p, found), After(p, at));
    }
    if found < |p.line| && EmbedsRepeats(p, t, wanted - 1, After(p, found)) {
      assert EmbedsAt(p, t, wanted, found);
    }
  }

  lemma FirstOccurrence(p: Problem, t: nat, wanted: nat, cursor: nat) returns (at: nat)
    requires t < |p.nodes| && wanted > 0 && EmbedsRepeats(p, t, wanted, cursor)
    ensures cursor <= at && EmbedsAt(p, t, wanted, at)
  {
    at :| cursor <= at && EmbedsAt(p, t, wanted, at);
  }

  lemma AfterFirst(p: Problem, t: nat, found: nat, at: nat)
    requires t < |p.nodes| && Aligned(p.line, found) && Aligned(p.line, at) && Atom(p, t, at) && found <= at
    ensures found < |p.line| && After(p, found) <= After(p, at)
  {
    StepAligned(p.line, found);
    StepAligned(p.line, at);
  }

  lemma {:induction false} RunEmbeds(p: Problem, t: nat, from: nat, n: nat, mid: nat, wanted: nat)
    requires t < |p.nodes| && wanted <= n && Aligned(p.line, from) && Run(p, t, from, n, mid)
    requires Embeds(p, t + 1, mid)
    ensures EmbedsRepeats(p, t, wanted, from)
    decreases n
  {
    if wanted == 0 {
      RunForward(p, t, from, n, mid);
      EmbedsEarlier(p, t + 1, from, mid);
    } else {
      StepAligned(p.line, from);
      RunEmbeds(p, t, After(p, from), n - 1, mid, wanted - 1);
      assert EmbedsAt(p, t, wanted, from);
    }
  }

  /** Every match embeds the mandatory atoms. */
  lemma {:induction false} MatchEmbeds(p: Problem, t: nat, from: nat, to: nat)
    requires Aligned(p.line, from) && Matches(p, t, from, to)
    ensures Embeds(p, t, from)
    decreases |p.nodes| - t
  {
    if t < |p.nodes| {
      if p.nodes[t].Consuming() {
        var n: nat, mid: nat :|
          Allowed(p.nodes[t].quant, n) && Run(p, t, from, n, mid) && Matches(p, t + 1, mid, to);
        RunForward(p, t, from, n, mid);
        MatchEmbeds(p, t + 1, mid, to);
        RunEmbeds(p, t, from, n, mid, if Mandatory(p.nodes[t]) then p.nodes[t].quant.min else 0);
      } else {
        MatchEmbeds(p, t + 1, from, to);
      }
    }
  }

  lemma NoEmbeddingNoMatch(p: Problem)
    requires !Embeds(p, 0, 0)
    ensures forall start: nat, end: nat :: !IsMatch(p, start, end)
  {
    forall start: nat, end: nat ensures !IsMatch(p, start, end) {
      if IsMatch(p, start, end) {
        MatchEmbeds(p, 0, start, end);
        EmbedsEarlier(p, 0, 0, start);
      }
    }
  }

  method FindAtom(p: Problem, t: nat, from: nat) returns (cursor: nat)
    requires t < |p.nodes| && p.nodes[t].Consuming() && Aligned(p.line, from)
    ensures IsFirstAtom(p, t, from, cursor)
  {
    cursor := from;
    while cursor < |p.line| && !ConsumeMatches(p.nodes[t], CodePoint(p.line, cursor), p.matcher)
      invariant Aligned(p.line, cursor) && from <= cursor <= |p.line|
      invariant forall at: nat :: from <= at < cursor && Aligned(p.line, at) ==> !Atom(p, t, at)
      decreases |p.line| - cursor
    {
      StepAligned(p.line, cursor);
      cursor := cursor + CodePointWidth(p.line, cursor);
    }
  }

  /** Take the first acceptable code point `wanted` times over. */
  method TakeRequired(p: Problem, t: nat, wanted: nat, from: nat) returns (possible: bool, cursor: nat)
    requires t < |p.nodes| && p.nodes[t].Consuming() && Aligned(p.line, from)
    ensures possible ==> Aligned(p.line, cursor)
    ensures EmbedsRepeats(p, t, wanted, from) <==> possible && EmbedsRepeats(p, t, 0, cursor)
  {
    cursor := from;
    ghost var answer := EmbedsRepeats(p, t, wanted, from);
    for repeat := 0 to wanted
      invariant Aligned(p.line, cursor)
      invariant EmbedsRepeats(p, t, wanted - repeat, cursor) <==> answer
    {
      var found := FindAtom(p, t, cursor);
      GreedyIsExact(p, t, wanted - repeat, cursor, found);
      if found >= |p.line| {
        return false, found;
      }
      assert Aligned(p.line, After(p, found)) by { StepAligned(p.line, found); }
      cursor := found + CodePointWidth(p.line, found);
    }
    return true, cursor;
  }

  /** Exactly whether every mandatory atom can be found, in order, in the line. */
  method RequiredSequencePossible(p: Problem) returns (possible: bool)
    ensures possible <==> Embeds(p, 0, 0)
  {
    var cursor := 0;
    for t := 0 to |p.nodes|
      invariant Aligned(p.line, cursor)
      invariant Embeds(p, t, cursor) <==> Embeds(p, 0, 0)
    {
      var node := p.nodes[t];
      EmbedsUnfolds(p, t, cursor);
      if node.Consuming() && node.quant.min != 0 {
        var found;
        found, cursor := TakeRequired(p, t, node.quant.min, cursor);
        if !found {
          return false;
        }
      }
    }
    return true;
  }

  lemma EmbedsUnfolds(p: Problem, t: nat, cursor: nat)
    requires t < |p.nodes|
    ensures Embeds(p, t, cursor) <==>
            if Mandatory(p.nodes[t]) then EmbedsRepeats(p, t, p.nodes[t].quant.min, cursor)
            else Embeds(p, t + 1, cursor)
  {
  }

  // ---- The latest start -------------------------------------------------------------------

  /** A match uses each mandatory atom at or after its start. */
  lemma {:induction false} MatchUses(p: Problem, t: nat, mandatory: nat, from: nat, to: nat) returns (at: nat)
    requires t <= mandatory < |p.nodes| && Mandatory(p.nodes[mandatory])
    requires Aligned(p.line, from) && Matches(p, t, from, to)
    ensures from <= at && Aligned(p.line, at) && Atom(p, mandatory, at)
    decreases |p.nodes| - t
  {
    if p.nodes[t].Consuming() {
      var n: nat, mid: nat :|
        Allowed(p.nodes[t].quant, n) && Run(p, t, from, n, mid) && Matches(p, t + 1, mid, to);
      if t == mandatory {
        at := from;
      } else {
        RunForward(p, t, from, n, mid);
        at := MatchUses(p, t + 1, mandatory, mid, to);
      }
    } else {
      at := MatchUses(p, t + 1, mandatory, from, to);
    }
  }

  /** `last` is where node `t` is last accepted in the line, or -1. */
  ghost predicate IsLastAtom(p: Problem, t: nat, last: int)
    requires t < |p.nodes|
  {
    && -1 <= last
    && (last >= 0 ==> Aligned(p.line, last) && Atom(p, t, last))
    && forall at: nat :: last < at && Aligned(p.line, at) ==> !Atom(p, t, at)
  }

  lemma NoMatchAfterLastAtom(p: Problem, t: nat, last: int)
    requires t < |p.nodes| && Mandatory(p.nodes[t]) && IsLastAtom(p, t, last)
    ensures forall start: nat, end: nat :: start > last ==> !IsMatch(p, start, end)
  {
    forall start: nat, end: nat | start > last ensures !IsMatch(p, start, end) {
      if IsMatch(p, start, end) {
        var at := MatchUses(p, 0, t, start, end);
      }
    }
  }

  method LastAtom(p: Problem, t: nat) returns (last: int)
    requires t < |p.nodes| && p.nodes[t].Consuming()
    ensures IsLastAtom(p, t, last)
  {
    last := -1;
    var offset := 0;
    while offset < |p.line|
      invariant Aligned(p.line, offset) && -1 <= last
      invariant last >= 0 ==> Aligned(p.line, last) && Atom(p, t, last)
      invariant forall at: nat :: last < at < offset && Aligned(p.line, at) ==> !Atom(p, t, at)
    {
      if ConsumeMatches(p.nodes[t], CodePoint(p.line, offset), p.matcher) {
        last := offset;
      }
      StepAligned(p.line, offset);
      offset := offset + CodePointWidth(p.line, offset);
    }
  }

  /** The least, over the mandatory nodes, of the place where each is last accepted; -1 when
      one is accepted nowhere. */
  method LatestPossibleStart(p: Problem) returns (latestStart: Option<int>)
    ensures latestStart.None? <==> forall t :: 0 <= t < |p.nodes| ==> !Mandatory(p.nodes[t])
    ensures latestStart.Some? ==>
              exists t :: 0 <= t < |p.nodes| && Mandatory(p.nodes[t]) && IsLastAtom(p, t, latestStart.value)
    ensures latestStart.Some? ==>
              forall t, last :: 0 <= t < |p.nodes| && Mandatory(p.nodes[t]) && IsLastAtom(p, t, last) ==>
                latestStart.value <= last
  {
    latestStart := None;
    for i := 0 to |p.nodes|
      invariant latestStart.None? <==> forall t :: 0 <= t < i ==> !Mandatory(p.nodes[t])
      invariant latestStart.Some? ==>
                  exists t :: 0 <= t < i && Mandatory(p.nodes[t]) && IsLastAtom(p, t, latestStart.value)
      invariant latestStart.Some? ==>
                  forall t, last :: 0 <= t < i && Mandatory(p.nodes[t]) && IsLastAtom(p, t, last) ==>
                    latestStart.value <= last
    {
      var node := p.nodes[i];
      if node.Consuming() && node.quant.min != 0 {
        var last := LastAtom(p, i);
        if last < 0 {
          return Some(-1);
        }
        latestStart := match latestStart
          case None => Some(last)
          case Some(latest) => Some(if last < latest then last else latest);
      }
    }
  }

  // ---- The last code point of an end-anchored pattern ------------------------------------------

  ghost predicate HasEndAnchor(nodes: seq<Node>, t: nat) {
    exists i :: t <= i < |nodes| && nodes[i].EndAnchor?
  }

  method ContainsEndAnchor(nodes: seq<Node>) returns (found: bool)
    ensures found <==> HasEndAnchor(nodes, 0)
  {
    for i := 0 to |nodes|
      invariant forall k :: 0 <= k < i ==> !nodes[k].EndAnchor?
    {
      if nodes[i].EndAnchor? {
        return true;
      }
    }
    return false;
  }

  method ContainsStartAnchor(nodes: seq<Node>) returns (found: bool)
    ensures found <==> exists i :: 0 <= i < |nodes| && nodes[i].StartAnchor?
  {
    for i := 0 to |nodes|
      invariant forall k :: 0 <= k < i ==> !nodes[k].StartAnchor?
    {
      if nodes[i].StartAnchor? {
        return true;
      }
    }
    return false;
  }

  lemma {:induction false} StartAnchorStartsAtZero(p: Problem, t: nat, i: nat, from: nat, to: nat)
    requires t <= i < |p.nodes| && p.nodes[i].StartAnchor? && Matches(p, t, from, to)
    ensures from == 0
    decreases |p.nodes| - t
  {
    if p.nodes[t].Consuming() {
      var n: nat, mid: nat :|
        Allowed(p.nodes[t].quant, n) && Run(p, t, from, n, mid) && Matches(p, t + 1, mid, to);
      RunForward(p, t, from, n, mid);
      StartAnchorStartsAtZero(p, t + 1, i, mid, to);
    } else if t < i {
      StartAnchorStartsAtZero(p, t + 1, i, from, to);
    }
  }

  lemma {:induction false} EndAnchorEndsTheLine(p: Problem, t: nat, from: nat, to: nat)
    requires HasEndAnchor(p.nodes, t) && from <= |p.line| && Matches(p, t, from, to)
    ensures to == |p.line|
    decreases |p.nodes| - t
  {
    if p.nodes[t].Consuming() {
      var n: nat, mid: nat :|
        Allowed(p.nodes[t].quant, n) && Run(p, t, from, n, mid) && Matches(p, t + 1, mid, to);
      RunForward(p, t, from, n, mid);
      EndAnchorEndsTheLine(p, t + 1, mid, to);
    } else if p.nodes[t].EndAnchor? {
      MatchesForward(p, t, from, to);
    } else {
      EndAnchorEndsTheLine(p, t + 1, from, to);
    }
  }

  /** Node `j` could take the last code point, which starts at `last`, with nothing mandatory after it. */
  ghost predicate TakesLast(p: Problem, j: nat, last: nat)
    requires j < |p.nodes|
  {
    && p.nodes[j].Consuming() && p.nodes[j].quant.max != Some(0) && Atom(p, j, last)
    && forall k :: j < k < |p.nodes| ==> !Mandatory(p.nodes[k])
  }

  predicate IsLastStart(line: Text, last: nat) {
    last < |line| && Aligned(line, last) && last + CodePointWidth(line, last) == |line|
  }

  lemma {:induction false} NothingMandatoryAtTheEnd(p: Problem, t: nat, k: nat, to: nat)
    requires t <= k < |p.nodes| && Matches(p, t, |p.line|, to)
    ensures !Mandatory(p.nodes[k])
    decreases |p.nodes| - t
  {
    if p.nodes[t].Consuming() {
      var n: nat, mid: nat :|
        Allowed(p.nodes[t].quant, n) && Run(p, t, |p.line|, n, mid) && Matches(p, t + 1, mid, to);
      assert n == 0;
    }
    if t < k {
      NothingMandatoryAtTheEnd(p, t + 1, k, to);
    }
  }

  lemma {:induction false} RunTakesLast(p: Problem, t: nat, from: nat, n: nat, last: nat)
    requires t < |p.nodes| && n > 0 && Aligned(p.line, from) && Run(p, t, from, n, |p.line|)
             && IsLastStart(p.line, last)
    ensures Atom(p, t, last)
    decreases n
  {
    StepAligned(p.line, from);
    if n > 1 {
      RunTakesLast(p, t, After(p, from), n - 1, last);
    } else {
      StepAligned(p.line, last);
    }
  }

  lemma {:induction false} SomeNodeTakesLast(p: Problem, t: nat, from: nat, last: nat) returns (j: nat)
    requires Matches(p, t, from, |p.line|) && from < |p.line| && Aligned(p.line, from) && IsLastStart(p.line, last)
    ensures t <= j < |p.nodes| && TakesLast(p, j, last)
    decreases |p.nodes| - t
  {
    if p.nodes[t].Consuming() {
      var n: nat, mid: nat :|
        Allowed(p.nodes[t].quant, n) && Run(p, t, from, n, mid) && Matches(p, t + 1, mid, |p.line|);
      RunForward(p, t, from, n, mid);
      if mid < |p.line| {
        j := SomeNodeTakesLast(p, t + 1, mid, last);
      } else {
        j := t;
        RunTakesLast(p, t, from, n, last);
        forall k | t < k < |p.nodes| ensures !Mandatory(p.nodes[k]) {
          NothingMandatoryAtTheEnd(p, t + 1, k, |p.line|);
        }
      }
    } else {
      j := SomeNodeTakesLast(p, t + 1, from, last);
    }
  }

  /** An end-anchored match hands the last code point to a node of the optional tail. */
  lemma NoTakerNoMatch(p: Problem, last: nat)
    requires HasEndAnchor(p.nodes, 0) && IsLastStart(p.line, last)
    requires forall j :: 0 <= j < |p.nodes| ==> !TakesLast(p, j, last)
    ensures forall start: nat, end: nat :: !IsMatch(p, start, end)
  {
    forall start: nat, end: nat ensures !IsMatch(p, start, end) {
      if IsMatch(p, start, end) {
        MatchesForward(p, 0, start, end);
        EndAnchorEndsTheLine(p, 0, start, end);
        var j := SomeNodeTakesLast(p, 0, start, last);
      }
    }
  }

  /** A node of the optional tail that can be repeated at all. */
  ghost predicate TailNode(p: Problem, j: nat)
    requires j < |p.nodes|
  {
    && p.nodes[j].Consuming() && p.nodes[j].quant.max != Some(0)
    && forall k :: j < k < |p.nodes| ==> !Mandatory(p.nodes[k])
  }

  /** Refuses exactly when there is a tail and none of its nodes accepts the last code point. */
  method EndAnchorCanMatchLineEnd(p: Problem) returns (possible: bool)
    ensures |p.line| == 0 ==> possible
    ensures forall last :: IsLastStart(p.line, last) ==>
              (possible <==>
                || (exists j :: 0 <= j < |p.nodes| && TakesLast(p, j, last))
                || (forall j :: 0 <= j < |p.nodes| ==> !TailNode(p, j)))
  {
    if |p.line| == 0 {
      return true;
    }
    var lastStart, o := 0, 0;
    while o < |p.line|
      invariant Aligned(p.line, o) && o <= |p.line|
      invariant o > 0 ==> Aligned(p.line, lastStart) && lastStart < o == lastStart + CodePointWidth(p.line, lastStart)
    {
      lastStart := o;
      StepAligned(p.line, o);
      o := o + CodePointWidth(p.line, o);
    }
    assert forall last :: IsLastStart(p.line, last) ==> last == lastStart by {
      forall last | IsLastStart(p.line, last) ensures last == lastStart {
        StepAligned(p.line, last);
        StepAligned(p.line, lastStart);
      }
    }
    var finalUnit := p.line[lastStart..];
    assert finalUnit == CodePoint(p.line, lastStart);
    var suffixRequiresConsumption, hasCandidate := false, false;
    var index := |p.nodes| - 1;
    while index >= 0
      invariant -1 <= index < |p.nodes|
      invariant suffixRequiresConsumption <==> exists k :: index < k < |p.nodes| && Mandatory(p.nodes[k])
      invariant hasCandidate <==> exists j :: index < j < |p.nodes| && TailNode(p, j)
      invariant forall j :: index < j < |p.nodes| ==> !TakesLast(p, j, lastStart)
    {
      var node := p.nodes[index];
      if node.Consuming() {
        if !suffixRequiresConsumption && node.quant.max != Some(0) {
          hasCandidate := true;
          assert TailNode(p, index);
          if ConsumeMatches(node, finalUnit, p.matcher) {
            assert TakesLast(p, index, lastStart);
            return true;
          }
        }
        if node.quant.min > 0 {
          suffixRequiresConsumption := true;
        }
      }
      index := index - 1;
    }
    return !hasCandidate;
  }
}
