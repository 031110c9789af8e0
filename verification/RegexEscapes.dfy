/** Escaped characters of a pattern (core/src/search.ts): outside a class an escape takes one
    code unit, inside a class a whole code point. */
module RegexEscapes {
  import opened Wrappers
  import opened Text
  import opened RegexLite
  import opened RegexParser

  /** An escape that stands for what follows it: no digit, no control letter. */
  predicate EscapesItself(query: Text, i: nat) {
    && i + 1 < |query|
    && query[i] == ESCAPE
    && !IsDigit(query[i + 1])
    && ControlLetter(query[i + 1]).None?
  }

  /** Outside a class an escape keeps the character behind it exactly when that is one unit. */
  lemma EscapeKeepsItsCharacter(query: Text, i: nat)
    requires EscapesItself(query, i)
    ensures AtomAt(query, i).Ok?
    ensures AtomAt(query, i).value.0 == Literal(CodePoint(query, i + 1), ONCE) <==> !IsSurrogatePairAt(query, i + 1)
  {
  }

  /** Inside a class it always keeps it, and reading goes on behind the whole character. */
  lemma ClassEscapeKeepsItsCharacter(query: Text, i: nat)
    requires EscapesItself(query, i)
    ensures ClassCode(query, i).Ok?
    ensures var (code, next) := ClassCode(query, i).value;
            code < 0x11_0000 && FromCodePoint(code) == CodePoint(query, i + 1) == query[i + 1..next]
                && Aligned(query[i + 1..], next - (i + 1))
  {
    CodePointRoundTrip(query, i + 1);
  }

  // ---- What a split character finds -------------------------------------------------------------

  /** No other code point is compared as equal to this unit. */
  ghost predicate MatchesOnlyItself(matcher: Matcher, unit: Unit) {
    matcher.caseSensitive || forall ch: Text :: matcher.lower(ch) == matcher.lower([unit]) ==> ch == [unit]
  }

  /** The two literals that an escaped character outside the basic plane falls apart into. */
  predicate IsSplitAt(nodes: seq<Node>, t: nat) {
    && t + 1 < |nodes|
    && nodes[t].Literal? && nodes[t].quant == ONCE && |nodes[t].value| == 1 && IsHighSurrogate(nodes[t].value[0])
    && nodes[t + 1].Literal? && nodes[t + 1].quant.min > 0 && |nodes[t + 1].value| == 1
        && IsLowSurrogate(nodes[t + 1].value[0])
  }

  ghost predicate ComparesSplitExactly(p: Problem, t: nat)
    requires IsSplitAt(p.nodes, t)
  {
    MatchesOnlyItself(p.matcher, p.nodes[t].value[0]) && MatchesOnlyItself(p.matcher, p.nodes[t + 1].value[0])
  }

  /** A literal of one unit that equals only itself takes that unit, standing alone. */
  lemma TakesItsUnit(p: Problem, t: nat, at: nat)
    requires t < |p.nodes| && p.nodes[t].Literal? && |p.nodes[t].value| == 1
             && MatchesOnlyItself(p.matcher, p.nodes[t].value[0])
    requires Atom(p, t, at)
    ensures CodePoint(p.line, at) == p.nodes[t].value && !IsSurrogatePairAt(p.line, at)
            && p.line[at] == p.nodes[t].value[0]
  {
    assert p.nodes[t].value == [p.nodes[t].value[0]];
    assert CodePoint(p.line, at)[0] == p.line[at];
  }

  /** The first half, alone, cannot stand before the second. */
  lemma SplitMatchesNothing(p: Problem, t: nat, from: nat, to: nat)
    requires IsSplitAt(p.nodes, t) && ComparesSplitExactly(p, t)
    ensures !Matches(p, t, from, to)
  {
    if Matches(p, t, from, to) {
      var n: nat, mid: nat :| Allowed(p.nodes[t].quant, n) && Run(p, t, from, n, mid) && Matches(p, t + 1, mid, to);
      HalfRunsOnce(p, t, from, mid);
      var m: nat, end: nat :| Allowed(p.nodes[t + 1].quant, m) && Run(p, t + 1, mid, m, end)
          && Matches(p, t + 2, end, to);
      TakesItsUnit(p, t, from);
      TakesItsUnit(p, t + 1, mid);
      assert false;
    }
  }

  lemma HalfRunsOnce(p: Problem, t: nat, from: nat, mid: nat)
    requires IsSplitAt(p.nodes, t) && ComparesSplitExactly(p, t) && Run(p, t, from, 1, mid)
    ensures Atom(p, t, from) && mid == from + 1
  {
    assert Run(p, t, After(p, from), 0, mid);
    TakesItsUnit(p, t, from);
  }

  lemma RestMatches(p: Problem, s: nat, from: nat, to: nat) returns (mid: nat)
    requires s < |p.nodes| && Matches(p, s, from, to)
    ensures Matches(p, s + 1, mid, to)
  {
    if p.nodes[s].Consuming() {
      var n: nat, m: nat :| Allowed(p.nodes[s].quant, n) && Run(p, s, from, n, m) && Matches(p, s + 1, m, to);
      mid := m;
    } else {
      mid := from;
    }
  }

  lemma {:induction false} NothingBeforeSplit(p: Problem, s: nat, t: nat, from: nat, to: nat)
    requires s <= t && IsSplitAt(p.nodes, t) && ComparesSplitExactly(p, t)
    ensures !Matches(p, s, from, to)
    decreases t - s
  {
    if s == t {
      SplitMatchesNothing(p, t, from, to);
    } else if Matches(p, s, from, to) {
      var mid := RestMatches(p, s, from, to);
      NothingBeforeSplit(p, s + 1, t, mid, to);
    }
  }

  /** A pattern with an escaped character outside the basic plane finds nothing in any line, if
      its halves are compared exactly, as they are in a case-sensitive search. */
  lemma SplitCharacterFindsNothing(p: Problem, t: nat, start: nat, end: nat)
    requires IsSplitAt(p.nodes, t) && ComparesSplitExactly(p, t)
    ensures !IsMatch(p, start, end)
  {
    NothingBeforeSplit(p, 0, t, start, end);
  }

  lemma {:induction false} NodesStartWith(query: Text, i: nat, before: seq<Node>)
    requires i <= |query| && NodesFrom(query, i, before).Ok?
    ensures before <= NodesFrom(query, i, before).value
    decreases |query| - i
  {
    hide NodeAt;
    if i < |query| {
      var node := NodeAt(query, i).value;
      NodesStartWith(query, node.1, before + [node.0]);
    }
  }

  /** Wherever an accepted pattern escapes a pair, its nodes have the two halves, the second
      with the quantifier that was meant for both. */
  lemma EscapedPairIsSplit(query: Text, i: nat, before: seq<Node>)
    requires i <= |query| && NodesFrom(query, i, before).Ok? && EscapesItself(query, i)
             && IsSurrogatePairAt(query, i + 1)
    ensures var nodes, t := NodesFrom(query, i, before).value, |before|;
            && t + 1 < |nodes|
            && nodes[t] == Literal([query[i + 1]], ONCE)
            && nodes[t + 1].Literal? && nodes[t + 1].value == [query[i + 2]]
            && (nodes[t + 1].quant.min > 0 ==> IsSplitAt(nodes, t))
  {
    var first := Literal([query[i + 1]], ONCE);
    assert NodeAt(query, i) == Ok((first, i + 2));
    assert CodePoint(query, i + 2) == [query[i + 2]];
    var second := NodeAt(query, i + 2).value;
    NodesStartWith(query, second.1, before + [first] + [second.0]);
    assert before + [first] + [second.0] <= NodesFrom(query, i, before).value;
    var t := |before|;
    assert (before + [first] + [second.0])[t] == first && (before + [first] + [second.0])[t + 1] == second.0;
  }

  /** So the escaped character never finds itself, while the bare one does. */
  lemma EscapedAstralLiteralIsSplit(high: Unit, low: Unit, matcher: Matcher)
    requires IsHighSurrogate(high) && IsLowSurrogate(low) && MatchesOnlyItself(matcher, high)
             && MatchesOnlyItself(matcher, low)
    ensures Parse([ESCAPE, high, low]).Ok? && Parse([high, low]).Ok?
    ensures forall line: Text, start: nat, end: nat ::
              !IsMatch(Problem(Parse([ESCAPE, high, low]).value, matcher, line), start, end)
    ensures IsMatch(Problem(Parse([high, low]).value, matcher, [high, low]), 0, 2)
  {
    EscapedIsSplit(high, low);
    var nodes := [Literal([high], ONCE), Literal([low], ONCE)];
    forall line: Text, start: nat, end: nat ensures !IsMatch(Problem(nodes, matcher, line), start, end) {
      SplitCharacterFindsNothing(Problem(nodes, matcher, line), 0, start, end);
    }
    var p := Problem([Literal([high, low], ONCE)], matcher, [high, low]);
    assert IsSurrogatePairAt(p.line, 0) && CodePoint(p.line, 0) == p.line;
    assert Run(p, 0, 2, 0, 2);
    assert Run(p, 0, 0, 1, 2);
    assert Matches(p, 1, 2, 2);
    assert Matches(p, 0, 0, 2);
  }

  lemma EscapedIsSplit(high: Unit, low: Unit)
    requires IsHighSurrogate(high) && IsLowSurrogate(low)
    ensures Parse([ESCAPE, high, low]) == Ok([Literal([high], ONCE), Literal([low], ONCE)])
    ensures Parse([high, low]) == Ok([Literal([high, low], ONCE)])
  {
    var escaped: Text := [ESCAPE, high, low];
    var first, second := Literal([high], ONCE), Literal([low], ONCE);
    assert NodeAt(escaped, 0) == Ok((first, 2));
    assert CodePoint(escaped, 2) == [low];
    assert NodeAt(escaped, 2) == Ok((second, 3));
    TwoNodes(escaped, 2, first, second);
    var bare: Text := [high, low];
    assert IsSurrogatePairAt(bare, 0) && CodePoint(bare, 0) == bare;
    assert NodeAt(bare, 0) == Ok((Literal(bare, ONCE), 2));
    assert [] + [Literal(bare, ONCE)] == [Literal(bare, ONCE)];
    assert NodesFrom(bare, 2, [Literal(bare, ONCE)]) == Ok([Literal(bare, ONCE)]);
  }

  lemma TwoNodes(query: Text, next: nat, first: Node, second: Node)
    requires 0 < next < |query| <= MAX_PATTERN_UNITS
    requires NodeAt(query, 0) == Ok((first, next)) && NodeAt(query, next) == Ok((second, |query|))
    ensures Parse(query) == Ok([first, second])
  {
    hide NodeAt;
    assert [] + [first] == [first] && [first] + [second] == [first, second];
    assert NodesFrom(query, |query|, [first, second]) == Ok([first, second]);
    assert NodesFrom(query, next, [first]) == Ok([first, second]);
  }
}
