/** The search entry point (`searchLines` of core/src/search.ts), and plain-text search with
    case folding that maps every hit back to the visible text. */
module SearchLines {
  import opened Wrappers
  import opened Text
  import opened TerminalControls
  import opened RegexLite
  import opened RegexParser
  import opened Search

  // ---- Folding --------------------------------------------------------------------------------

  /** A folded text, and for each of its units the bounds of the character it came from. */
  datatype FoldedVisibleText = FoldedVisibleText(text: Text, starts: seq<nat>, ends: seq<nat>)

  function Repeat(n: nat, count: nat): (list: seq<nat>)
    ensures |list| == count && forall k :: 0 <= k < count ==> list[k] == n
  {
    seq(count, _ => n)
  }

  function Upward(count: nat, from: nat): (list: seq<nat>)
    ensures |list| == count && forall k :: 0 <= k < count ==> list[k] == from + k
  {
    seq(count, k requires 0 <= k => from + k)
  }

  /** The folding of the text from `offset` on, character by character. */
  function FoldFrom(value: Text, offset: nat, lower: Text -> Text): (folded: FoldedVisibleText)
    requires offset <= |value|
    ensures |folded.starts| == |folded.ends| == |folded.text|
    ensures forall k :: 0 <= k < |folded.starts| ==> offset <= folded.starts[k] < folded.ends[k] <= |value|
    decreases |value| - offset
  {
    if offset == |value| then FoldedVisibleText([], [], [])
    else
      var width := CodePointWidth(value, offset);
      var here := lower(CodePoint(value, offset));
      var rest := FoldFrom(value, offset + width, lower);
      FoldedVisibleText(here + rest.text, Repeat(offset, |here|) + rest.starts,
          Repeat(offset + width, |here|) + rest.ends)
  }

  method FoldVisibleText(value: Text, lower: Text -> Text) returns (folded: FoldedVisibleText)
    ensures folded == FoldFrom(value, 0, lower)
  {
    var text: Text := [];
    var starts: seq<nat>, ends: seq<nat> := [], [];
    var offset: nat := 0;
    while offset < |value|
      invariant offset <= |value|
      invariant text + FoldFrom(value, offset, lower).text == FoldFrom(value, 0, lower).text
      invariant starts + FoldFrom(value, offset, lower).starts == FoldFrom(value, 0, lower).starts
      invariant ends + FoldFrom(value, offset, lower).ends == FoldFrom(value, 0, lower).ends
      decreases |value| - offset
    {
      var width := CodePointWidth(value, offset);
      var here := lower(value[offset..offset + width]);
      ghost var rest := FoldFrom(value, offset + width, lower);
      ConcatAssociates(text, here, rest.text);
      ConcatAssociates(starts, Repeat(offset, |here|), rest.starts);
      ConcatAssociates(ends, Repeat(offset + width, |here|), rest.ends);
      text, starts, ends := text + here, starts + Repeat(offset, |here|), ends + Repeat(offset + width, |here|);
      offset := offset + width;
    }
    folded := FoldedVisibleText(text, starts, ends);
    assert text + [] == text && starts + [] == starts && ends + [] == ends;
  }

  // ---- Plain matches of one line ------------------------------------------------------------------

  predicate OccursAt(hay: Text, needle: Text, at: nat) {
    at + |needle| <= |hay| && hay[at..at + |needle|] == needle
  }

  /** `hay.indexOf(needle, from)`, with the first place or -1. */
  function IndexOf(hay: Text, needle: Text, from: nat): (index: int)
    ensures index == -1 || (from <= index && index + |needle| <= |hay| && OccursAt(hay, needle, index))
    ensures forall k: nat :: from <= k && OccursAt(hay, needle, k) ==> index != -1 && index <= k
    decreases |hay| - from
  {
    if from + |needle| > |hay| then -1
    else if OccursAt(hay, needle, from) then from
    else IndexOf(hay, needle, from + 1)
  }

  /** A hit ends behind its start. */
  predicate BoundsRise(starts: seq<nat>, ends: seq<nat>)
    requires |starts| == |ends|
  {
    forall k, l :: 0 <= k <= l < |starts| ==> starts[k] < ends[l]
  }

  /** A haystack with the visible bounds of each unit. */
  datatype Haystack = Haystack(text: Text, starts: seq<nat>, ends: seq<nat>)
  {
    predicate Valid() {
      |starts| == |ends| == |text| && BoundsRise(starts, ends)
    }
  }

  /** All hits from `pos` on, overlapping ones too, in the coordinates of the visible text. */
  function PlainHits(hay: Haystack, needle: Text, lineIndex: nat, pos: nat): seq<SearchMatch>
    requires hay.Valid() && |needle| > 0
    decreases |hay.text| - pos
  {
    if pos + |needle| > |hay.text| then []
    else if OccursAt(hay.text, needle, pos) then
      [SearchMatch(lineIndex, hay.starts[pos], hay.ends[pos + |needle| - 1])] +
          PlainHits(hay, needle, lineIndex, pos + 1)
    else PlainHits(hay, needle, lineIndex, pos + 1)
  }

  lemma {:induction false} HitsFromFound(hay: Haystack, needle: Text, lineIndex: nat, pos: nat, found: nat)
    requires hay.Valid() && |needle| > 0 && pos <= found && forall k :: pos <= k < found ==>
               !OccursAt(hay.text, needle, k)
    requires found + |needle| <= |hay.text| + 1
    ensures PlainHits(hay, needle, lineIndex, pos) == PlainHits(hay, needle, lineIndex, found)
    decreases found - pos
  {
    if pos < found {
      HitsFromFound(hay, needle, lineIndex, pos + 1, found);
    }
  }

  lemma OneHitMore(hay: Haystack, needle: Text, lineIndex: nat, pos: nat, found: nat, matches: seq<SearchMatch>,
      hit: SearchMatch)
    requires hay.Valid() && |needle| > 0 && pos <= found && forall k :: pos <= k < found ==>
               !OccursAt(hay.text, needle, k)
    requires OccursAt(hay.text, needle, found) && hit ==
             SearchMatch(lineIndex, hay.starts[found], hay.ends[found + |needle| - 1])
    ensures matches + PlainHits(hay, needle, lineIndex, pos) == matches + [hit] +
            PlainHits(hay, needle, lineIndex, found + 1)
  {
    HitsFromFound(hay, needle, lineIndex, pos, found);
    ConcatAssociates(matches, [hit], PlainHits(hay, needle, lineIndex, found + 1));
  }

  /** The loop shared by both paths of the source: hits are listed until the limit is passed. */
  method CollectHits(hay: Haystack, needle: Text, lineIndex: nat, limitState: LimitState)
    requires hay.Valid() && |needle| > 0
    requires !limitState.limitReached && |limitState.matches| <= MAX_MATCHES
    modifies limitState
    ensures var all := old(limitState.matches) + PlainHits(hay, needle, lineIndex, 0);
            limitState.matches == Capped(all) && limitState.limitReached == (|all| > MAX_MATCHES)
  {
    hide PlainHits, OccursAt, BoundsRise;
    ghost var before := limitState.matches;
    var pos: nat := 0;
    while pos + |needle| <= |hay.text|
      invariant pos <= |hay.text|
      invariant !limitState.limitReached && |limitState.matches| <= MAX_MATCHES
      invariant limitState.matches + PlainHits(hay, needle, lineIndex, pos) == before +
                PlainHits(hay, needle, lineIndex, 0)
      decreases |hay.text| - pos
    {
      var found := IndexOf(hay.text, needle, pos);
      if found == -1 {
        HitsFromFound(hay, needle, lineIndex, pos, |hay.text| + 1 - |needle|);
        pos := |hay.text| + 1 - |needle|;
        break;
      }
      var hit := SearchMatch(lineIndex, hay.starts[found], hay.ends[found + |needle| - 1]);
      OneHitMore(hay, needle, lineIndex, pos, found, limitState.matches, hit);
      if |limitState.matches| >= MAX_MATCHES {
        limitState.limitReached := true;
        return;
      }
      limitState.matches := limitState.matches + [hit];
      pos := found + 1;
    }
    NoHitsLeft(hay, needle, lineIndex, pos);
    assert limitState.matches + [] == limitState.matches;
  }

  lemma NoHitsLeft(hay: Haystack, needle: Text, lineIndex: nat, pos: nat)
    requires hay.Valid() && |needle| > 0 && pos + |needle| > |hay.text|
    ensures PlainHits(hay, needle, lineIndex, pos) == []
  {
  }

  // ---- Haystacks ----------------------------------------------------------------------------------

  /** Unit for unit: the haystack of a case-sensitive search, and of an all-ASCII line. */
  function UnitHaystack(text: Text): (hay: Haystack)
    ensures hay.Valid()
  {
    Haystack(text, Upward(|text|, 0), Upward(|text|, 1))
  }

  function FoldedHaystack(line: Text, lower: Text -> Text): (hay: Haystack)
    ensures hay.Valid()
  {
    var folded := FoldFrom(line, 0, lower);
    FoldedBoundsRise(line, 0, lower);
    Haystack(folded.text, folded.starts, folded.ends)
  }

  lemma {:induction false} FoldedBoundsRise(value: Text, offset: nat, lower: Text -> Text)
    requires offset <= |value|
    ensures BoundsRise(FoldFrom(value, offset, lower).starts, FoldFrom(value, offset, lower).ends)
    decreases |value| - offset
  {
    if offset < |value| {
      var width := CodePointWidth(value, offset);
      FoldedBoundsRise(value, offset + width, lower);
      BoundsRiseOnward(offset, width, |lower(CodePoint(value, offset))|,
          FoldFrom(value, offset + width, lower).starts, FoldFrom(value, offset + width, lower).ends);
    }
  }

  lemma BoundsRiseOnward(offset: nat, width: nat, count: nat, starts: seq<nat>, ends: seq<nat>)
    requires width > 0 && |starts| == |ends| && BoundsRise(starts, ends)
    requires forall k :: 0 <= k < |starts| ==> offset + width <= starts[k] < ends[k]
    ensures BoundsRise(Repeat(offset, count) + starts, Repeat(offset + width, count) + ends)
  {
  }

  predicate IsPureAscii(text: Text) {
    forall i :: 0 <= i < |text| ==> text[i] <= 0x7f
  }

  /** Lower-casing ASCII works unit by unit. */
  ghost predicate LowersAsciiUnits(lower: Text -> Text) {
    forall text: Text | IsPureAscii(text) :: LowersUnits(lower, text)
  }

  ghost predicate LowersUnits(lower: Text -> Text, text: Text) {
    && |lower(text)| == |text|
    && forall i :: 0 <= i < |text| ==> lower(text[i..i + 1]) == [lower(text)[i]]
  }

  lemma CountUp(count: nat, from: nat)
    requires count > 0
    ensures Upward(count, from) == Repeat(from, 1) + Upward(count - 1, from + 1)
  {
  }

  lemma {:induction false} AsciiFoldsInPlace(line: Text, offset: nat, lower: Text -> Text)
    requires offset <= |line| && IsPureAscii(line) && LowersUnits(lower, line)
    ensures FoldFrom(line, offset, lower) ==
            FoldedVisibleText(lower(line)[offset..], Upward(|line| - offset, offset),
                Upward(|line| - offset, offset + 1))
    decreases |line| - offset
  {
    if offset < |line| {
      AsciiFoldsInPlace(line, offset + 1, lower);
      assert !IsHighSurrogate(line[offset]);
      assert CodePoint(line, offset) == line[offset..offset + 1];
      assert lower(line)[offset..] == [lower(line)[offset]] + lower(line)[offset + 1..];
      CountUp(|line| - offset, offset);
      CountUp(|line| - offset, offset + 1);
    }
  }

  /** The short cut for all-ASCII lines searches the same haystack as the full folding. */
  lemma AsciiShortCut(line: Text, lower: Text -> Text)
    requires IsPureAscii(line) && LowersAsciiUnits(lower)
    ensures FoldedHaystack(line, lower) == UnitHaystack(lower(line))
  {
    assert LowersUnits(lower, line);
    AsciiFoldsInPlace(line, 0, lower);
    assert lower(line)[0..] == lower(line);
  }

  function HaystackOf(line: Text, matcher: Matcher): (hay: Haystack)
    ensures hay.Valid()
  {
    if matcher.caseSensitive then UnitHaystack(line) else FoldedHaystack(line, matcher.lower)
  }

  method CollectPlainMatches(line: Text, needle: Text, matcher: Matcher, lineIndex: nat, limitState: LimitState)
    requires |needle| > 0 && LowersAsciiUnits(matcher.lower)
    requires !limitState.limitReached && |limitState.matches| <= MAX_MATCHES
    modifies limitState
    ensures var all := old(limitState.matches) + PlainHits(HaystackOf(line, matcher), needle, lineIndex, 0);
            limitState.matches == Capped(all) && limitState.limitReached == (|all| > MAX_MATCHES)
  {
    if !matcher.caseSensitive && IsPureAscii(line) {
      AsciiShortCut(line, matcher.lower);
      CollectHits(UnitHaystack(matcher.lower(line)), needle, lineIndex, limitState);
      return;
    }
    if matcher.caseSensitive {
      CollectHits(UnitHaystack(line), needle, lineIndex, limitState);
      return;
    }
    FoldedBoundsRise(line, 0, matcher.lower);
    var folded := FoldVisibleText(line, matcher.lower);
    CollectHits(Haystack(folded.text, folded.starts, folded.ends), needle, lineIndex, limitState);
  }

  /** What a plain hit is: some occurrence of the needle in the folded line, from the start of
      the first character it touches to the end of the last. */
  lemma {:induction false} PlainHitsAreAllOccurrences(hay: Haystack, needle: Text, lineIndex: nat, pos: nat,
      m: SearchMatch)
    requires hay.Valid() && |needle| > 0
    ensures m in PlainHits(hay, needle, lineIndex, pos) <==>
              exists at: nat :: pos <= at && OccursAt(hay.text, needle, at)
                                && m == SearchMatch(lineIndex, hay.starts[at], hay.ends[at + |needle| - 1])
    decreases |hay.text| - pos
  {
    if pos + |needle| <= |hay.text| {
      PlainHitsAreAllOccurrences(hay, needle, lineIndex, pos + 1, m);
    }
  }

  // ---- Searching lines ------------------------------------------------------------------------------

  datatype Mode = Plain | RegexLiteMode | OtherMode

  datatype SearchResult = SearchResult(matches: seq<SearchMatch>, error: Option<ErrorCode>)

  ghost function AllPlainHits(rawLines: seq<Text>, needle: Text, matcher: Matcher, from: nat): seq<SearchMatch>
    requires |needle| > 0
    decreases |rawLines| - from
  {
    if from >= |rawLines| then []
    else
      PlainHits(HaystackOf(VisibleText(rawLines[from], Stripper), matcher), needle, from, 0)
      + AllPlainHits(rawLines, needle, matcher, from + 1)
  }

  method SearchPlain(rawLines: seq<Text>, needle: Text, matcher: Matcher)
    returns (matches: seq<SearchMatch>, limitReached: bool)
    requires |needle| > 0 && LowersAsciiUnits(matcher.lower)
    ensures var all := AllPlainHits(rawLines, needle, matcher, 0);
            matches == Capped(all) && limitReached == (|all| > MAX_MATCHES)
  {
    hide PlainHits, Capped, HaystackOf, LowersAsciiUnits;
    var limitState := new LimitState();
    var line := 0;
    while line < |rawLines| && !limitState.limitReached
      invariant 0 <= line <= |rawLines|
      invariant !limitState.limitReached ==>
                  && |limitState.matches| <= MAX_MATCHES
                  && limitState.matches + AllPlainHits(rawLines, needle, matcher, line) ==
                      AllPlainHits(rawLines, needle, matcher, 0)
      invariant limitState.limitReached ==>
                  && |AllPlainHits(rawLines, needle, matcher, 0)| > MAX_MATCHES
                  && limitState.matches == Capped(AllPlainHits(rawLines, needle, matcher, 0))
    {
      ghost var before := limitState.matches;
      var visible := StripTerminalControls(rawLines[line]);
      CollectPlainMatches(visible, needle, matcher, line, limitState);
      CappedStays(before, PlainHits(HaystackOf(visible, matcher), needle, line, 0),
          AllPlainHits(rawLines, needle, matcher, line + 1));
      line := line + 1;
    }
    return limitState.matches, limitState.limitReached;
  }

  /** The whole list of matches that a query stands for, if it stands for any. */
  ghost function Answer(rawLines: seq<Text>, query: Text, mode: Mode, matcher: Matcher): Result<seq<SearchMatch>,
      ErrorCode>
    requires |query| > 0 ==> |matcher.lower(query)| > 0
  {
    if query == [] then Err(EmptyQuery)
    else if |query| > MAX_PATTERN_UNITS then Err(PatternTooLong)
    else
      match mode
      case Plain => Ok(AllPlainHits(rawLines, if matcher.caseSensitive then query else matcher.lower(query), matcher,
          0))
      case OtherMode => Err(UnsupportedSyntax)
      case RegexLiteMode =>
        match Parse(query)
        case Err(error) => Err(error)
        case Ok(nodes) => Ok(AllMatches(nodes, matcher, rawLines, 0))
  }

  /** A search reports what is wrong with its query, or the first ten thousand matches, and
      `result-limit` exactly when there are more. */
  method SearchAll(rawLines: seq<Text>, query: Text, mode: Mode, matcher: Matcher) returns (result: SearchResult)
    requires LowersAsciiUnits(matcher.lower) && (|query| > 0 ==> |matcher.lower(query)| > 0)
    ensures match Answer(rawLines, query, mode, matcher)
            case Err(error) => result == SearchResult([], Some(error))
            case Ok(all) =>
              result == if |all| <= 10_000 then SearchResult(all, None)
                        else SearchResult(all[..10_000], Some(ResultLimit))
  {
    if |query| == 0 {
      return SearchResult([], Some(EmptyQuery));
    }
    if |query| > MAX_PATTERN_UNITS {
      return SearchResult([], Some(PatternTooLong));
    }
    var matches, limitReached;
    match mode {
      case Plain =>
        matches, limitReached := SearchPlain(rawLines, if matcher.caseSensitive then query else matcher.lower(query),
            matcher);
      case OtherMode =>
        return SearchResult([], Some(UnsupportedSyntax));
      case RegexLiteMode =>
        var parsed := ParseRegexLite(query);
        if parsed.Err? {
          return SearchResult([], Some(parsed.error));
        }
        matches, limitReached := SearchRegex(rawLines, parsed.value, matcher);
    }
    return SearchResult(matches, if limitReached then Some(ResultLimit) else None);
  }
}
