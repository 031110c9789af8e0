/** What `searchLines` of core/src/search.ts answers, said of the rows and the query alone. */
module SearchAnswers {
  import opened Wrappers
  import opened Text
  import opened TerminalControls
  import opened RegexLite
  import RegexGrammar
  import opened RegexParser
  import opened Search
  import opened SearchLines

  // ---- Folding ----------------------------------------------------------------------------------

  /** Lower-casing works code point by code point on this text. */
  ghost predicate LowersByCodePoint(lower: Text -> Text, value: Text) {
    && lower([]) == []
    && forall o: nat :: o < |value| && Aligned(value, o) ==> LowersAt(lower, value, o)
  }

  predicate LowersAt(lower: Text -> Text, value: Text, o: nat)
    requires o < |value|
  {
    lower(value[o..]) == lower(CodePoint(value, o)) + lower(value[o + CodePointWidth(value, o)..])
  }

  /** Then the folded text is the lowered text. */
  lemma {:induction false} FoldIsLowering(value: Text, offset: nat, lower: Text -> Text)
    requires offset <= |value| && Aligned(value, offset) && LowersByCodePoint(lower, value)
    ensures FoldFrom(value, offset, lower).text == lower(value[offset..])
    decreases |value| - offset
  {
    if offset < |value| {
      StepAligned(value, offset);
      assert LowersAt(lower, value, offset);
      FoldIsLowering(value, offset + CodePointWidth(value, offset), lower);
    } else {
      assert value[offset..] == [];
    }
  }

  /** Every character is folded in its place: its lowering stands in the folded text, and each
      unit of it leads back to the whole character. */
  lemma {:induction false} CharacterIsFolded(value: Text, offset: nat, lower: Text -> Text, o: nat) returns (place: nat)
    requires offset <= o < |value| && Aligned(value, offset) && Aligned(value, o)
    ensures var folded, here := FoldFrom(value, offset, lower), lower(CodePoint(value, o));
            && place + |here| <= |folded.text| && folded.text[place..place + |here|] == here
            && (forall j :: place <= j < place + |here| ==>
                  folded.starts[j] == o && folded.ends[j] == o + CodePointWidth(value, o))
    decreases |value| - offset
  {
    var folded, here := FoldFrom(value, offset, lower), lower(CodePoint(value, offset));
    var next := offset + CodePointWidth(value, offset);
    if offset == o {
      place := 0;
      assert folded.text[..|here|] == here;
    } else {
      StepAligned(value, offset);
      var rest := FoldFrom(value, next, lower);
      var later := CharacterIsFolded(value, next, lower, o);
      place := |here| + later;
      var n := |lower(CodePoint(value, o))|;
      assert folded.text[place..place + n] == rest.text[later..later + n];
      assert forall j :: place <= j < place + n ==>
          folded.starts[j] == rest.starts[j - |here|] && folded.ends[j] == rest.ends[j - |here|];
    }
  }

  // ---- Plain hits ---------------------------------------------------------------------------------

  function HitAt(hay: Haystack, needle: Text, lineIndex: nat, at: nat): SearchMatch
    requires hay.Valid() && |needle| > 0 && at + |needle| <= |hay.text|
  {
    SearchMatch(lineIndex, hay.starts[at], hay.ends[at + |needle| - 1])
  }

  /** The places are those of all occurrences from `pos` on, in order. */
  ghost predicate AreAllPlaces(text: Text, needle: Text, pos: nat, places: seq<nat>) {
    && (forall k :: 0 <= k < |places| ==> places[k] + |needle| <= |text|)
    && (forall at: nat :: at in places <==> pos <= at && SearchLines.OccursAt(text, needle, at))
    && (forall a, b :: 0 <= a < b < |places| ==> places[a] < places[b])
  }

  /** The hits are those at the places. */
  ghost predicate AreHitsAt(hay: Haystack, needle: Text, lineIndex: nat, hits: seq<SearchMatch>, places: seq<nat>)
    requires hay.Valid() && |needle| > 0 && forall k :: 0 <= k < |places| ==> places[k] + |needle| <= |hay.text|
  {
    |hits| == |places| && forall k :: 0 <= k < |hits| ==> hits[k] == HitAt(hay, needle, lineIndex, places[k])
  }

  lemma OnePlaceMore(text: Text, needle: Text, pos: nat, rest: seq<nat>)
    requires pos + |needle| <= |text| && AreAllPlaces(text, needle, pos + 1, rest)
    ensures AreAllPlaces(text, needle, pos, if SearchLines.OccursAt(text, needle, pos) then [pos] + rest else rest)
  {
    if SearchLines.OccursAt(text, needle, pos) {
      var places := [pos] + rest;
      hide SearchLines.OccursAt;
      forall at: nat ensures at in places <==> pos <= at && SearchLines.OccursAt(text, needle, at) {
        assert at in places <==> at == pos || at in rest;
      }
      forall b | 0 < b < |places| ensures pos < places[b] {
        assert places[b] in rest;
      }
    }
  }

  /** The hits of a line are its occurrences, each once and from left to right. */
  lemma {:induction false} HitsAreInOrder(hay: Haystack, needle: Text, lineIndex: nat, pos: nat)
    returns (places: seq<nat>)
    requires hay.Valid() && |needle| > 0
    ensures AreAllPlaces(hay.text, needle, pos, places)
    ensures AreHitsAt(hay, needle, lineIndex, PlainHits(hay, needle, lineIndex, pos), places)
    decreases |hay.text| - pos
  {
    if pos + |needle| > |hay.text| {
      places := [];
    } else {
      var rest := HitsAreInOrder(hay, needle, lineIndex, pos + 1);
      OnePlaceMore(hay.text, needle, pos, rest);
      hide AreAllPlaces, SearchLines.OccursAt;
      places := if SearchLines.OccursAt(hay.text, needle, pos) then [pos] + rest else rest;
    }
  }

  /** What a plain match is: with case, an occurrence of the query in the visible text; without,
      one of the lowered query in the folded visible text, from the start of the first character
      it touches to the end of the last. */
  ghost predicate IsPlainMatch(rawLines: seq<Text>, query: Text, matcher: Matcher, m: SearchMatch) {
    && m.line < |rawLines|
    && var visible := VisibleText(rawLines[m.line], Stripper);
       if matcher.caseSensitive then m.start < m.end <= |visible| && visible[m.start..m.end] == query
       else
         var folded, needle := FoldFrom(visible, 0, matcher.lower), matcher.lower(query);
         exists at: nat ::
           && SearchLines.OccursAt(folded.text, needle, at) && |needle| > 0
           && m.start == folded.starts[at] && m.end == folded.ends[at + |needle| - 1]
  }

  function Needle(query: Text, matcher: Matcher): Text {
    if matcher.caseSensitive then query else matcher.lower(query)
  }

  lemma LineHits(rawLines: seq<Text>, query: Text, matcher: Matcher, line: nat, m: SearchMatch)
    requires line < |rawLines| && |query| > 0 && |Needle(query, matcher)| > 0
    ensures m in PlainHits(HaystackOf(VisibleText(rawLines[line], Stripper), matcher), Needle(query, matcher), line, 0)
            <==> m.line == line && IsPlainMatch(rawLines, query, matcher, m)
  {
    var visible := VisibleText(rawLines[line], Stripper);
    var hay, needle := HaystackOf(visible, matcher), Needle(query, matcher);
    PlainHitsAreAllOccurrences(hay, needle, line, 0, m);
    if matcher.caseSensitive {
      if m.line == line && m.start < m.end <= |visible| && visible[m.start..m.end] == query {
        assert SearchLines.OccursAt(visible, query, m.start);
        assert hay.ends[m.start + |query| - 1] == m.start + |query|;
      }
    }
  }

  lemma {:induction false} LinesHits(rawLines: seq<Text>, query: Text, matcher: Matcher, from: nat, m: SearchMatch)
    requires |query| > 0 && |Needle(query, matcher)| > 0
    ensures m in AllPlainHits(rawLines, Needle(query, matcher), matcher, from) <==>
              from <= m.line && IsPlainMatch(rawLines, query, matcher, m)
    decreases |rawLines| - from
  {
    hide HaystackOf, PlainHits;
    if from < |rawLines| {
      LineHits(rawLines, query, matcher, from, m);
      LinesHits(rawLines, query, matcher, from + 1, m);
      hide IsPlainMatch;
    }
  }

  /** The answer to a plain query within the length limit is all its matches. */
  lemma PlainAnswerMeaning(rawLines: seq<Text>, query: Text, matcher: Matcher, m: SearchMatch)
    requires 0 < |query| <= 256 && |matcher.lower(query)| > 0
    ensures var answer := Answer(rawLines, query, Plain, matcher);
            answer.Ok? && (m in answer.value <==> IsPlainMatch(rawLines, query, matcher, m))
  {
    LinesHits(rawLines, query, matcher, 0, m);
  }

  /** Without case, only the lowering of a query counts. */
  lemma SameLoweringSameAnswer(rawLines: seq<Text>, query: Text, other: Text, matcher: Matcher)
    requires 0 < |query| <= 256 && 0 < |other| <= 256 && !matcher.caseSensitive
    requires matcher.lower(query) == matcher.lower(other) && |matcher.lower(query)| > 0
    ensures Answer(rawLines, query, Plain, matcher) == Answer(rawLines, other, Plain, matcher)
  {
  }

  /** A line that holds a word in any case is found by the word in any case: on text that lowers
      code point by code point, exactly where the lowered line holds the lowered query. */
  lemma FoundWithoutCase(rawLines: seq<Text>, query: Text, matcher: Matcher, line: nat, at: nat)
    requires 0 < |query| <= 256 && |matcher.lower(query)| > 0 && !matcher.caseSensitive && line < |rawLines|
    requires var visible := VisibleText(rawLines[line], Stripper);
             && LowersByCodePoint(matcher.lower, visible)
             && SearchLines.OccursAt(matcher.lower(visible), matcher.lower(query), at)
    ensures Answer(rawLines, query, Plain, matcher).Ok?
    ensures exists m :: m in Answer(rawLines, query, Plain, matcher).value && m.line == line
  {
    var visible, needle := VisibleText(rawLines[line], Stripper), matcher.lower(query);
    FoldIsLowering(visible, 0, matcher.lower);
    assert visible[0..] == visible;
    var folded := FoldFrom(visible, 0, matcher.lower);
    var m := SearchMatch(line, folded.starts[at], folded.ends[at + |needle| - 1]);
    assert IsPlainMatch(rawLines, query, matcher, m);
    PlainAnswerMeaning(rawLines, query, matcher, m);
  }

  // ---- Regex matches --------------------------------------------------------------------------------

  lemma PlacedHas(line: nat, spans: seq<Span>, m: SearchMatch)
    ensures m in Placed(line, spans) <==> m.line == line && Span(m.start, m.end) in spans
  {
    if m.line == line && Span(m.start, m.end) in spans {
      var k :| 0 <= k < |spans| && spans[k] == Span(m.start, m.end);
      assert Placed(line, spans)[k] == m;
    }
  }

  ghost predicate IsRegexMatch(rawLines: seq<Text>, nodes: seq<Node>, matcher: Matcher, m: SearchMatch) {
    && m.line < |rawLines|
    && exists spans ::
         && IsLeftmostLongest(Problem(nodes, matcher, VisibleText(rawLines[m.line], Stripper)), 0, spans)
         && Span(m.start, m.end) in spans
  }

  lemma {:induction false} LinesMatches(rawLines: seq<Text>, nodes: seq<Node>, matcher: Matcher, from: nat,
      m: SearchMatch)
    ensures m in AllMatches(nodes, matcher, rawLines, from) <==>
              from <= m.line && IsRegexMatch(rawLines, nodes, matcher, m)
    decreases |rawLines| - from
  {
    if from < |rawLines| {
      var p := LineProblem(nodes, matcher, rawLines[from]);
      PlacedHas(from, MatchesFrom(p, 0), m);
      LineHasTheseMatches(p, m);
      hide MatchesFrom, IsLeftmostLongest, Placed;
      LinesMatches(rawLines, nodes, matcher, from + 1, m);
    }
  }

  lemma LineHasTheseMatches(p: RegexLite.Problem, m: SearchMatch)
    ensures Span(m.start, m.end) in MatchesFrom(p, 0) <==>
              exists spans :: IsLeftmostLongest(p, 0, spans) && Span(m.start, m.end) in spans
  {
    MatchesFromIsLeftmostLongest(p, 0);
    forall spans | IsLeftmostLongest(p, 0, spans) ensures spans == MatchesFrom(p, 0) {
      LeftmostLongestIsUnique(p, 0, spans, MatchesFrom(p, 0));
    }
  }

  /** The answer to a pattern is, in every line, its leftmost longest matches in the visible text. */
  lemma RegexAnswerMeaning(rawLines: seq<Text>, query: Text, matcher: Matcher, m: SearchMatch)
    requires 0 < |query| <= 256 && |matcher.lower(query)| > 0 && Parse(query).Ok?
    ensures var answer := Answer(rawLines, query, RegexLiteMode, matcher);
            answer.Ok? && (m in answer.value <==> IsRegexMatch(rawLines, Parse(query).value, matcher, m))
  {
    LinesMatches(rawLines, Parse(query).value, matcher, 0, m);
  }

  /** What is wrong with a query, in the order it is looked for. */
  lemma AnswerErrors(rawLines: seq<Text>, query: Text, mode: Mode, matcher: Matcher)
    requires |query| > 0 ==> |matcher.lower(query)| > 0
    ensures query == [] ==> Answer(rawLines, query, mode, matcher) == Err(EmptyQuery)
    ensures |query| > 256 ==> Answer(rawLines, query, mode, matcher) == Err(PatternTooLong)
    ensures 0 < |query| <= 256 ==>
              (Answer(rawLines, query, mode, matcher).Err? <==>
                 mode == OtherMode || (mode == RegexLiteMode && Parse(query).Err?))
    ensures 0 < |query| <= 256 && mode == OtherMode ==>
              Answer(rawLines, query, mode, matcher) == Err(UnsupportedSyntax)
    ensures 0 < |query| <= 256 && mode == RegexLiteMode && Parse(query).Err? ==>
              Answer(rawLines, query, mode, matcher) == Err(Parse(query).error)
  {
  }

  ghost predicate LinesRise(matches: seq<SearchMatch>) {
    forall a, b :: 0 <= a < b < |matches| ==> matches[a].line <= matches[b].line
  }

  lemma LinesRiseOnward(line: nat, here: seq<SearchMatch>, later: seq<SearchMatch>)
    requires (forall m :: m in here ==> m.line == line) && (forall m :: m in later ==> line < m.line)
             && LinesRise(later)
    ensures LinesRise(here + later)
  {
    var all := here + later;
    forall a, b | 0 <= a < b < |all| ensures all[a].line <= all[b].line {
      assert if a < |here| then all[a] in here else all[a] == later[a - |here|];
      assert if b < |here| then all[b] in here else all[b] == later[b - |here|] && all[b] in later;
    }
  }

  /** Matches are listed line by line. */
  lemma {:induction false} PlainLinesRise(rawLines: seq<Text>, query: Text, matcher: Matcher, from: nat)
    requires |query| > 0 && |Needle(query, matcher)| > 0
    ensures LinesRise(AllPlainHits(rawLines, Needle(query, matcher), matcher, from))
    decreases |rawLines| - from
  {
    if from < |rawLines| {
      PlainLinesRise(rawLines, query, matcher, from + 1);
      var visible := VisibleText(rawLines[from], Stripper);
      var here := PlainHits(HaystackOf(visible, matcher), Needle(query, matcher), from, 0);
      var later := AllPlainHits(rawLines, Needle(query, matcher), matcher, from + 1);
      forall m ensures (m in here ==> m.line == from) && (m in later ==> from < m.line) {
        LineHits(rawLines, query, matcher, from, m);
        LinesHits(rawLines, query, matcher, from + 1, m);
      }
      hide PlainHits, HaystackOf, LinesRise;
      LinesRiseOnward(from, here, later);
    }
  }

  lemma {:induction false} RegexLinesRise(rawLines: seq<Text>, nodes: seq<Node>, matcher: Matcher, from: nat)
    ensures LinesRise(AllMatches(nodes, matcher, rawLines, from))
    decreases |rawLines| - from
  {
    if from < |rawLines| {
      RegexLinesRise(rawLines, nodes, matcher, from + 1);
      var spans := MatchesFrom(LineProblem(nodes, matcher, rawLines[from]), 0);
      var later := AllMatches(nodes, matcher, rawLines, from + 1);
      forall m ensures m in later ==> from < m.line {
        LinesMatches(rawLines, nodes, matcher, from + 1, m);
      }
      hide MatchesFrom, LinesRise;
      LinesRiseOnward(from, Placed(from, spans), later);
    }
  }

  // ---- Words ------------------------------------------------------------------------------------------

  /** One literal for each code point of a word. */
  function LiteralsOf(word: Text, offset: nat): (nodes: seq<Node>)
    requires offset <= |word|
    decreases |word| - offset
  {
    if offset == |word| then []
    else [Literal(CodePoint(word, offset), ONCE)] + LiteralsOf(word, offset + CodePointWidth(word, offset))
  }

  /** A word without operators parses to its code points. */
  lemma {:induction false} WordParses(word: Text, offset: nat, before: seq<Node>)
    requires offset <= |word|
    requires forall k :: 0 <= k < |word| ==> !RegexGrammar.IsOperator(word[k])
    ensures NodesFrom(word, offset, before) == Ok(before + LiteralsOf(word, offset))
    decreases |word| - offset
  {
    if offset == |word| {
      assert before + [] == before;
    } else {
      var node, next := Literal(CodePoint(word, offset), ONCE), offset + CodePointWidth(word, offset);
      assert NodeAt(word, offset) == Ok((node, next));
      hide NodeAt;
      WordParses(word, next, before + [node]);
      ConcatAssociates(before, [node], LiteralsOf(word, next));
    }
  }

  /** The word stands in the line from `from` to `to`, and its end cuts no pair. */
  predicate WordStands(line: Text, word: Text, offset: nat, from: nat, to: nat) {
    && offset <= |word| && from <= to <= |line| && line[from..to] == word[offset..]
    && (offset < |word| ==> !IsSurrogatePairAt(line, to - 1))
  }

  lemma OneLiteral(p: RegexLite.Problem, t: nat, from: nat, to: nat)
    requires t < |p.nodes| && p.nodes[t].Literal? && p.nodes[t].quant == ONCE && p.matcher.caseSensitive
    ensures Matches(p, t, from, to) <==>
              from < |p.line| && CodePoint(p.line, from) == p.nodes[t].value && Matches(p, t + 1, After(p, from), to)
  {
    if Matches(p, t, from, to) {
      var n: nat, mid: nat :| Allowed(ONCE, n) && Run(p, t, from, n, mid) && Matches(p, t + 1, mid, to);
      assert n == 1;
      assert Run(p, t, After(p, from), 0, mid);
    }
    if from < |p.line| && CodePoint(p.line, from) == p.nodes[t].value && Matches(p, t + 1, After(p, from), to) {
      assert Run(p, t, After(p, from), 0, After(p, from));
      assert Allowed(ONCE, 1) && Run(p, t, from, 1, After(p, from));
    }
  }

  lemma WordStep(line: Text, word: Text, offset: nat, from: nat, to: nat)
    requires offset < |word|
    ensures var next := offset + CodePointWidth(word, offset);
            WordStands(line, word, offset, from, to) <==>
              from < |line| && CodePoint(line, from) == CodePoint(word, offset)
              && WordStands(line, word, next, from + CodePointWidth(line, from), to)
  {
    var next := offset + CodePointWidth(word, offset);
    var ahead := CodePoint(word, offset);
    assert word[offset..] == ahead + word[next..];
    if WordStands(line, word, offset, from, to) {
      assert line[from..to][0] == word[offset..][0];
      if to - from > 1 {
        assert line[from..to][1] == word[offset..][1];
      }
      assert CodePoint(line, from) == ahead;
      assert line[from + |ahead|..to] == line[from..to][|ahead|..] == word[next..];
    }
    if from < |line| && CodePoint(line, from) == ahead {
      var after := from + CodePointWidth(line, from);
      assert |ahead| == CodePointWidth(line, from);
      if WordStands(line, word, next, after, to) {
        assert line[from..to] == ahead + line[after..to];
      }
    }
  }

  /** With case, a word without operators matches exactly where it stands in the line. */
  lemma {:induction false} WordMatchesItself(p: RegexLite.Problem, word: Text, offset: nat, t: nat, from: nat, to: nat)
    requires p.matcher.caseSensitive && offset <= |word| && t <= |p.nodes| && p.nodes[t..] == LiteralsOf(word, offset)
    requires from <= |p.line|
    ensures Matches(p, t, from, to) <==> WordStands(p.line, word, offset, from, to)
    decreases |word| - offset
  {
    if offset == |word| {
      assert |p.nodes[t..]| == 0;
      if WordStands(p.line, word, offset, from, to) {
        assert |p.line[from..to]| == 0;
      }
    } else {
      var next := offset + CodePointWidth(word, offset);
      assert p.nodes[t] == p.nodes[t..][0] && p.nodes[t + 1..] == p.nodes[t..][1..] == LiteralsOf(word, next);
      OneLiteral(p, t, from, to);
      WordStep(p.line, word, offset, from, to);
      hide Matches, WordStands, LiteralsOf;
      if from < |p.line| {
        WordMatchesItself(p, word, next, t + 1, After(p, from), to);
      }
    }
  }
}
