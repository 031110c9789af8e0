# Verification of thumbmux

A Dafny model of the framework-free core of thumbmux and of a few of its server protocols, with
proofs of what they promise. `dafny verify dfyconfig.toml` checks the whole project.

The modules follow the source files.

- **Search** (`RegexLite`, `RegexAtoms`, `RegexEngine`, `RegexFilters`, `Search`, `RegexParser`,
  `RegexGrammar`, `RegexPrinter`, `RegexEscapes`, `SearchLines`, `SearchAnswers`). `RegexLite` says by
  recursion over nodes and counts what a pattern matches, and nothing about machines. The state
  tables, the closure, the scan and its three early exits are proved to find exactly those matches.
  `RegexGrammar` says which patterns there are, apart from any way of reading them, and
  `SearchAnswers` what a whole search answers.
- **Stable scrolling** (`TerminalScroll`). The budgeted scan and the prefix-function automaton both
  return the largest overlap of two captures.
- **Tool presentation** (`MonotonicSelection`, `ToolBlocks`, `ToolValidation`, `ToolProjection`,
  `ToolCoalescing`, `ToolGroups`, `ToolReconcile`, `CodexTools`, `CodexEvents`, `ClaudeBash`,
  `ClaudeCalls`, `ClaudeGroups`). Detectors propose blocks of rows, a validator judges them, a
  projector hides them, a coalescer joins them, and a reconciler carries their ids from frame to
  frame. `CodexEvents`, `ClaudeCalls` and `ToolGroups` say in terms of rows what is found and joined.
- **Deltas and journals** (`Protocol`, `Replay`, `ReplayParser`, `HistorySeam`). What a sender
  records is what a receiver rebuilds and what a seek in the journal shows.
- **Terminal rows** (`TerminalControls`, `TerminalTokens`, `RangeWalker`, `AnsiHtml`, `AnsiTokens`).
  Two readers of one control grammar, and the attribution of paint, links and highlights to the
  text they show.
- **Protocols over runs** (`HistoryStitch`, `ActivityPoll`, `HistoryWatchdog`). One step is a
  function of state and event that the class method is proved against; the lemmas are about every
  sequence of events.
- `Text`, `Wrappers`, `Sequences`, `StableSort` and `FreshKeys` hold strings of UTF-16 units, options,
  filtering, the stable sort and the choice of a free key.

Text is a sequence of UTF-16 code units. What cannot be seen from these files is a function-valued
parameter: `toLowerCase` (`Matcher.lower`), the prefix hash and serialised size (`Protocol.Env`), the
reading of one JSON line (`ReplayParser.Reader`), SGR paint and link safety (`AnsiHtml.Env`),
placeholder text, and the row tests of the two detectors (`CodexTools.Rules`, `ClaudeBash.Screen`).
Clocks are parameters, and times are reals.

Three results are about behaviour that differs from what a reader would expect:

- The stripper and the renderer are meant to agree on visible text. `ESC ESC A` and `ESC` before an
  emoji are rows where they do not. `TerminalControls.ReadersAgree` decides exactly when they show
  the same units of a row; on rows of whole surrogate pairs with no BEL inside a CSI that is also
  exactly when they show the same text (`SameTextMeansSameUnits`). Outside those rows the same text
  may come from other units (`SameTextOfOtherUnits`), and only one direction holds.
- A journal writer may record a delta whose caret has a negative column; the parser then refuses
  the file at that line, because full frames accept such a caret and deltas do not
  (`ReplayParser.SomeJournalIsRefused`). A journal is read back exactly when no pane is lost like
  that (`ReplayParser.JournalParsesUnlessLost`), which a sender can check before writing.
- Outside a class an escape keeps the character behind it exactly when that is one code unit; a
  character outside the basic plane falls apart into two literals that match nothing in any line
  (`RegexEscapes.SplitCharacterFindsNothing`). Inside a class an escape keeps the whole character.

## Model

| member | source | states |
|---|---|---|
| RegexLite.MatchesFromIsLeftmostLongest | core/src/search.ts:714-774 | the recursive list of matches is leftmost, longest, non-empty and non-overlapping, and no match starts in a gap |
| RegexLite.LeftmostLongestIsUnique | core/src/search.ts:714-774 | only one list of spans is leftmost-longest from a start, so the specification has one answer |
| RegexAtoms.ClassTakesWithCase | core/src/search.ts:414-429 | with case a class takes exactly the code points it names and those between its ends |
| RegexAtoms.ClassTakesWithoutCase | core/src/search.ts:430-447 | without case it also takes what lowers to the lowering of one it names, or to a text between those of two ends |
| RegexAtoms.CaseOnlyNarrows | core/src/search.ts:414-466 | leaving case aside never loses a character |
| RegexAtoms.SingletonIsLiteral | core/src/search.ts:414-466 | a class of one character, or a range from it to itself, takes exactly what the literal takes, with and without case |
| RegexAtoms.AsciiRangeWithoutCase | core/src/search.ts:430-440 | on ASCII a range without case takes what lies between its ends as it stands, or with all three lowered |
| RegexAtoms.DotStarMatchesAnything | core/src/search.ts:455-466 | `.*` matches exactly the stretches from one code point boundary to another |
| RegexEngine.BuildStateTables | core/src/search.ts:468-504 | every bounded repeat gets one state per repetition and every token a contiguous block of states, the accept state last |
| RegexEngine.StateUnfolds | core/src/search.ts:506-565 | what a state still accepts is what its empty moves and its own consuming step accept |
| RegexEngine.EpsilonClose | core/src/search.ts:506-565 | the closure found with tagged marks holds each state once and accepts the same stretches as the states it started from |
| RegexEngine.AdvanceVisitTag | core/src/search.ts:681-687 | a new visit tag is unused in the whole mark array, through the wrap at 0xfffffffe as well |
| RegexEngine.AdvanceStates | core/src/search.ts:737-760 | one code point later the states accept exactly what the closed states accepted behind that code point |
| RegexFilters.RequiredSequencePossible | core/src/search.ts:584-606 | true exactly when the mandatory atoms occur in the line in order, repetitions included |
| RegexFilters.NoEmbeddingNoMatch | core/src/search.ts:584-606 | a line without the mandatory atoms in order has no match at all, so the early exit is sound |
| RegexFilters.LatestPossibleStart | core/src/search.ts:608-631 | the bound is the last place of a last mandatory atom |
| RegexFilters.NoMatchAfterLastAtom | core/src/search.ts:608-631 | no match starts behind that place |
| RegexFilters.EndAnchorCanMatchLineEnd | core/src/search.ts:633-664 | false exactly when no atom that could come last takes the last code point of the line |
| RegexFilters.NoTakerNoMatch | core/src/search.ts:633-664 | an end-anchored pattern has no match on such a line |
| RegexFilters.StartAnchorStartsAtZero | core/src/search.ts:711-720 | a pattern with a start anchor matches at column zero only, wherever the anchor stands |
| Search.StepAt | core/src/search.ts:728-760 | one position of the scan: acceptance shows exactly when a match ends here, and no states are left exactly when none can end later |
| Search.LongestFrom | core/src/search.ts:723-763 | the scan from one start finds the farthest end of any match from it |
| Search.CollectRegexMatches | core/src/search.ts:691-775 | state tables, closure and all three early exits together add exactly the leftmost-longest matches of the line, up to the limit |
| Search.SearchRegex | core/src/search.ts:895-920 | over all lines the result is the first 10,000 matches, and the limit is reported exactly when there are more |
| RegexParser.ParseQuantifier | core/src/search.ts:154-256 | reads a quantifier as `QuantifierAt` does, whose every answer `RegexGrammar.QuantifierMeaning` describes |
| RegexParser.ParseCharClass | core/src/search.ts:258-330 | reads a class in one pass as `ClassFrom` does, which `RegexGrammar.ClassMeaning` ties to the grammar |
| RegexParser.ParseRegexLite | core/src/search.ts:332-412 | reads a pattern as `Parse` does, which `RegexGrammar.ParseMeaning` ties to the grammar; what it accepts is well-formed: bounded quantifiers, never on an anchor |
| RegexGrammar.QuantifierMeaning | core/src/search.ts:154-256 | a quantifier is accepted exactly when it is one of the grammar, an invalid bound exactly braces with bounds out of order or above 100, and malformed exactly an open brace without the form |
| RegexGrammar.ClassMeaning | core/src/search.ts:258-330 | a class is accepted exactly when it is brackets around members of the grammar, and is those members |
| RegexGrammar.ParseMeaning | core/src/search.ts:332-412 | a pattern within the length limit is accepted exactly when it says some nodes by the grammar, and gives exactly those |
| RegexPrinter.PrintedPatternsParse | core/src/search.ts:332-412 | every printable node list, printed within the length limit, parses back to exactly itself |
| RegexPrinter.PrintableIsWhatParsingReturns | core/src/search.ts:332-412 | the printable node lists, lone surrogates included, are exactly those that reading a pattern of any length can return |
| RegexPrinter.QuantifierReads | core/src/search.ts:154-256 | a printed quantifier parses back to itself in front of anything |
| RegexPrinter.ItemsRead | core/src/search.ts:258-330 | printed class members parse back in order onto those read before |
| RegexEscapes.EscapeKeepsItsCharacter | core/src/search.ts:83-114 | outside a class an escape keeps the character behind it exactly when that is no surrogate pair |
| RegexEscapes.ClassEscapeKeepsItsCharacter | core/src/search.ts:116-152 | inside a class an escape keeps the whole character behind it, and reading goes on behind it |
| RegexEscapes.EscapedPairIsSplit | core/src/search.ts:374-377 | wherever an accepted pattern escapes a pair, its nodes hold the two halves as literals of their own |
| RegexEscapes.SplitCharacterFindsNothing | core/src/search.ts:449-466 | a pattern with such halves matches nothing in any line, if halves are compared exactly |
| RegexEscapes.EscapedAstralLiteralIsSplit | core/src/search.ts:83-114 | so an escaped emoji finds nothing anywhere, while the bare one finds itself |
| SearchLines.FoldVisibleText | core/src/search.ts:63-81 | folding keeps, for each folded unit, the bounds of the character it came from |
| SearchLines.AsciiShortCut | core/src/search.ts:793-818 | the unit-by-unit search of an all-ASCII line uses the same haystack as the full folding |
| SearchLines.CollectPlainMatches | core/src/search.ts:784-840 | adds all hits of the line, overlapping ones too, in visible coordinates, up to the limit |
| SearchLines.PlainHitsAreAllOccurrences | core/src/search.ts:817-839 | a hit is listed exactly when the folded line holds the folded query there |
| SearchLines.SearchAll | core/src/search.ts:842-921 | each query error in its order, or the first 10,000 matches of `Answer`, with `result-limit` exactly when there are more; what `Answer` holds is stated by the rows below |
| SearchAnswers.PlainAnswerMeaning | core/src/search.ts:867-881 | a plain query answers with exactly the matches where a line's folded visible text holds the folded query; with case, the query itself |
| SearchAnswers.FoldIsLowering | core/src/search.ts:63-81 | where a text lowers code point by code point, the folded text is the lowered text |
| SearchAnswers.FoundWithoutCase | core/src/search.ts:867-881 | without case a line is matched wherever its lowered visible text holds the lowered query |
| SearchAnswers.SameLoweringSameAnswer | core/src/search.ts:868-874 | without case, queries that lower to the same text have the same answer |
| SearchAnswers.HitsAreInOrder | core/src/search.ts:820-839 | the hits of a line come once each and from left to right |
| SearchAnswers.RegexAnswerMeaning | core/src/search.ts:890-914 | a pattern answers with exactly the leftmost longest matches in each line's visible text |
| SearchAnswers.AnswerErrors | core/src/search.ts:847-893 | which queries are refused, and as what |
| SearchAnswers.PlainLinesRise | core/src/search.ts:870-874 | plain matches are listed line by line |
| SearchAnswers.RegexLinesRise | core/src/search.ts:900-913 | pattern matches are listed line by line |
| SearchAnswers.WordMatchesItself | core/src/search.ts:332-412 | with case a word without operators matches, as a pattern, exactly where it stands in the line |
| TerminalScroll.FindLineOverlap | core/src/terminal-scroll.ts:25-44 | the largest overlap, whether the budget lasts or the scan gives up into the automaton |
| TerminalScroll.PrefixFunction | core/src/terminal-scroll.ts:64-74 | the failure table holds the longest border of every prefix |
| TerminalScroll.ConsumeRow | core/src/terminal-scroll.ts:78-91 | one row takes the automaton from the largest overlap so far to the largest with that row |
| TerminalScroll.FindLineOverlapLinear | core/src/terminal-scroll.ts:47-93 | the automaton ends on the largest overlap |
| TerminalScroll.FallBack | core/src/terminal-scroll.ts:78-91 | falling back to the border of a failed overlap loses no larger one |
| TerminalScroll.LargestOverlapMergesShortest | core/src/terminal-scroll.ts:95-119 | joining at the largest overlap gives the shortest sequence with the old capture in front and the new one at the end |
| TerminalScroll.MergeCapturedLinesForStableScroll | core/src/terminal-scroll.ts:95-119 | a stable merge is that shortest sequence; the capture is replaced exactly when no overlap is long enough |
| MonotonicSelection.BestIsLeast | core/src/tool-projection.ts:197-219 | each table entry is the least total distance of any increasing choice |
| MonotonicSelection.TraceIsEarliest | core/src/tool-projection.ts:212-231 | among the cheapest choices the decisions read back give the earliest, compared from the last item |
| MonotonicSelection.FillRow | core/src/tool-projection.ts:203-217 | one row of two-row cost table and decision matrix from the row before |
| MonotonicSelection.ReadBack | core/src/tool-projection.ts:221-231 | reading the decisions back gives the choice they stand for |
| MonotonicSelection.SelectGreedily | core/src/tool-projection.ts:234-251 | beyond the table limit the choice still never crosses and never runs out, and stops at each first non-improving candidate |
| MonotonicSelection.SelectMonotonicIndices | core/src/tool-projection.ts:187-252 | one increasing in-range index per item; the cheapest and earliest such choice while the table fits |
| ToolReconcile.SelectionsPairUncrossed | core/src/tool-projection.ts:255-283 | pairing by such a choice crosses nothing and leaves over only items of the longer side |
| ToolReconcile.MonotonicSourcePairs | core/src/tool-projection.ts:255-283 | pairs two corridors by the cheapest choice into the longer one |
| ToolReconcile.CommonDetectorOrigin | core/src/tool-projection.ts:340-354 | the origin that all blocks share, if they do |
| ToolReconcile.ExactCandidates | core/src/tool-projection.ts:369-379 | the last earlier block with the same lookup id, if its fingerprint is the same too |
| ToolReconcile.CollectAnchors | core/src/tool-projection.ts:407-439 | exactly the exact candidates that are more than row collisions, in order of the earlier side |
| ToolReconcile.NeighboursDecide | core/src/tool-projection.ts:451-458 | checking sorted neighbours is enough: anchors are used exactly when no two of them clash |
| ToolReconcile.CorridorSettles | core/src/tool-projection.ts:476-490 | filling the next corridor keeps the whole pairing uncrossed, and no further pair fits |
| ToolReconcile.PairCorridors | core/src/tool-projection.ts:476-490 | the pairing around anchors crosses nothing, keeps every anchor, cannot be extended, and pairs each corridor at the least total distance |
| ToolReconcile.ReconcileGroup | core/src/tool-projection.ts:394-496 | one fingerprint: an uncrossed, maximal pairing of all its blocks that keeps all anchors when none of them clash, least in every corridor; which exact candidates are rejected |
| ToolReconcile.GiveOutIds | core/src/tool-projection.ts:499-526 | each block gets its wanted id, or the first free provisional one exactly when that is forced, reserved or taken |
| ToolReconcile.CarriedIdsArrive | core/src/tool-projection.ts:499-526 | when the earlier ids differ, every paired block gets exactly its predecessor's id |
| ToolReconcile.CarriersDiffer | core/src/tool-projection.ts:394-497 | no two blocks take over the same earlier block |
| ToolReconcile.ReconcileToolBlockIds | core/src/tool-projection.ts:363-527 | ids end pairwise distinct, nothing but ids changes, ids go only between equal fingerprints and in source order; no two blocks left over could still be paired; every id follows the rule, with exactly the forced blocks forced, and unpaired blocks keep ids nobody else has |
| ToolReconcile.PairedLeavesNothing | core/src/tool-projection.ts:394-497 | an earlier and a later block of one fingerprint that are both left over stand on either side of a pair carried between them |
| ToolReconcile.LeftOverStandsAcross | core/src/tool-projection.ts:394-497 | the same by start lines: the pair begins before the one block and behind the other |
| ToolReconcile.OnlyOnesAreCarried | core/src/tool-projection.ts:394-497 | the only block of a fingerprint on one side takes over the id of the only one on the other |
| FreshKeys.FreshKey | core/src/tool-projection.ts:514-521 | the search for a free id ends, at the first free candidate |
| ToolBlocks.FlawlessIsWellProved | core/src/tool-projection.ts:588-626 | passing all checks is the same as a complete proof: every source row hidden or protected, never both |
| ToolBlocks.ClassifyOne | core/src/tool-projection.ts:588-626 | reports the first flaw in the order of the checks, or none |
| ToolBlocks.NeighboursDecideOverlap | core/src/tool-projection.ts:614-619 | comparing sorted neighbours finds an overlap between the two range lists exactly when there is one |
| ToolValidation.SweepStep | core/src/tool-projection.ts:663-672 | comparing with the furthest-reaching predecessor alone keeps the overlap marks exact |
| ToolValidation.Sweep | core/src/tool-projection.ts:653-672 | the sweep marks exactly the ranges that meet another |
| ToolValidation.VerdictMeaning | core/src/tool-projection.ts:629-683 | a block is rejected exactly when it is flawed, or meets or has the id of another unflawed block |
| ToolValidation.ValidateToolCollapseBlocks | core/src/tool-projection.ts:629-683 | the accepted blocks sorted by start, and the others each with its reason |
| ToolValidation.AcceptedAreInSequence | core/src/tool-projection.ts:674-677 | accepted blocks are complete, pairwise apart and have different ids |
| ToolValidation.SequenceIsAccepted | core/src/tool-projection.ts:629-683 | validation leaves a list alone exactly when it is already in sequence |
| ToolProjection.ProjectToolLines | core/src/tool-projection.ts:704-830 | rows tile the source in order, every source row is located, and the hidden count is what the raw rows leave over |
| ToolProjection.LocatesIsMonotoneInverse | core/src/tool-projection.ts:761-814 | `rawToVisualRow` is the monotone inverse of the row ranges |
| ToolProjection.UnhiddenRowsStayRaw | core/src/tool-projection.ts:764-814 | a source row shows verbatim exactly when no accepted block collapses it |
| ToolProjection.ProtectedRowsStayRaw | core/src/tool-projection.ts:764-814 | protected rows are shown verbatim |
| ToolProjection.PlaceholderKeysDiffer | core/src/tool-projection.ts:787-788 | different collapse ranges have different placeholder keys |
| ToolCoalescing.ProjectionRowsCoverRawSource | core/src/tool-projection.ts:842-859 | the consistency check is true exactly when the rows cover the source |
| ToolCoalescing.ProjectionsCoverSource | core/src/tool-projection.ts:842-859 | a projection of validated blocks always passes that check |
| ToolCoalescing.AssignToolPlaceholderGroupKeys | core/src/tool-projection.ts:930-991 | group keys are pairwise distinct; carried keys follow their earlier owners in order, a fresh one is the first free candidate on its first member |
| ToolCoalescing.ValidGroupsInOrder | core/src/tool-projection.ts:907-928 | the groups whose keys can be carried are exactly the usable ones without a namesake, in order |
| ToolCoalescing.CollectRuns | core/src/tool-projection.ts:1034-1068 | runs are joined exactly where only blank rows lie between and no barrier or hard range is touched |
| ToolCoalescing.CoalesceAdjacentToolProjection | core/src/tool-projection.ts:1011-1150 | grouped rows tile the source again, with distinct keys and an exact map; an inconsistent projection is passed through unchanged |
| ToolCoalescing.SwallowedLinesAreBlank | core/src/tool-projection.ts:882-905 | raw rows taken into a group are blank and outside every hard range |
| ToolCoalescing.BarriersStayInsideMembers | core/src/tool-projection.ts:871-905 | a barrier inside a group lies inside one member, never at or between members |
| ToolCoalescing.ProtectedLinesStayShown | core/src/tool-projection.ts:1011-1150 | protected rows stay raw and verbatim after grouping |
| ToolGroups.NeighboursBecomeOne | core/src/tool-projection.ts:882-905 | two neighbouring placeholders become one row exactly when they show the same text for the same provider over a blank gap, with no barrier of the caller and no range that must stay in or at it |
| ToolGroups.IsHardRange | core/src/tool-projection.ts:1018-1033 | the ranges that must stay are exactly those that projected blocks protect and the valid sources of rejected blocks |
| ToolGroups.RejectedLinesStayShown | core/src/tool-projection.ts:1018-1150 | a row of a rejected block that was shown is still shown verbatim |
| ToolGroups.HardLinesStayShown | core/src/tool-projection.ts:1018-1150 | so is every row of a range that must stay |
| ToolGroups.CallersBarriersHold | core/src/tool-projection.ts:1018-1023 | a caller's barrier within a grouped row lies inside a placeholder that was there before |
| ToolGroups.UnchangedRunsKeepTheirKeys | core/src/tool-projection.ts:930-991 | when the next frame has the same runs, wherever they stand, each of them keeps its key |
| ToolGroups.GroupIsUsable | core/src/tool-projection.ts:907-928 | a group that was shown can hand its key on exactly when it shows some text under keys that are not blank |
| Protocol.JoinUndoesSplit | core/src/protocol.ts:341-344 | splitting output into lines loses nothing |
| Protocol.SplitUndoesJoin | core/src/protocol.ts:341-344 | joining lines can be undone exactly when there is a line and none holds a newline |
| Protocol.MuxCommonPrefixLength | core/src/protocol.ts:370-375 | the longest common prefix of the two bases |
| Protocol.DeltaRebuildsNext | core/src/protocol.ts:378-395 | a created delta applied to its base gives the next lines, exactly when its caret is allowed on the wire |
| Protocol.DeltaIsShortest | core/src/protocol.ts:378-395 | no valid delta between the two carries fewer lines |
| Protocol.DeltaOnOtherBase | core/src/protocol.ts:485-522 | on another base a delta is refused or still gives the right lines, if the hash tells the prefixes apart |
| Protocol.ChosenFrameIsReceived | core/src/protocol.ts:534-562 | whatever frame is chosen, the receiver ends with the sender's lines; only a delta with a negative caret column is lost |
| HistorySeam.ComparesNumerically | core/src/protocol.ts:451-455 | comparing validated sequence numbers as text is comparing them as numbers |
| HistorySeam.CanonicalIsPrinted | core/src/protocol.ts:439 | the sequence numbers let through are exactly the numbers of at most twenty digits, as they are printed |
| HistorySeam.ValidMeaning | core/src/protocol.ts:429-449 | which seams are let through |
| HistorySeam.TransitionMeaning | core/src/protocol.ts:458-479 | what each of the four transitions means in numbers; `same` is equality |
| HistorySeam.SeamsAreOrdered | core/src/protocol.ts:458-479 | non-regressing transitions are reflexive, antisymmetric and transitive |
| HistorySeam.ChainsStayInOrder | core/src/protocol.ts:458-479 | along an accepted chain any two seams are in order, and the sequence number determines the seam |
| Replay.ReplayJournal.FindRecordIndexByTime | core/src/replay.ts:215-234 | the last record at or before the time, clamped at both ends, the last one on ties |
| Replay.ReplayJournal.FindSeekSnapshotForRecordIndex | core/src/replay.ts:295-307 | the nearest snapshot at or before a record |
| Replay.ReplayJournal.ReconstructState | core/src/replay.ts:236-292 | memo and snapshots give the state of the plain fold, neither `throw` is reached, fewer than 64 records are stepped |
| Replay.ReplayJournal.Seek | core/src/replay.ts:191-213 | after any earlier seeks the answer is that of the plain fold; only a non-finite time is refused |
| Replay.ReplayJournal.FromValidated | core/src/replay.ts:101-134 | a journal is ready for seeking from validated records, with snapshots or with its checkpoints as such |
| Replay.CheckpointsServe | core/src/replay.ts:120-134 | full-frame checkpoints alone are snapshots that a journal can be looked up by |
| Replay.LastAtOrBeforeIsUnique | core/src/replay.ts:215-234 | a record that is at or before the time, with the next one later, is the record selected |
| ReplayParser.SplitCompleteNdjsonLines | core/src/replay.ts:452-462 | the complete lines of the file, without what follows the last newline |
| ReplayParser.ParsedIsSound | core/src/replay.ts:311-450 | accepted records have one session, ordered times, a full frame first, and can all be reconstructed |
| ReplayParser.ReadRecord | core/src/replay.ts:330-433 | one line is checked in the order of the source, with the state it leaves |
| ReplayParser.ParseReplayJournal | core/src/replay.ts:311-450 | accepts exactly the specified journals with stride snapshots and checkpoints in place, or reports the first failure and its line |
| ReplayParser.ChosenDeltaIsEligible | core/src/replay.ts:417-430 | a delta the sender chose is never refused as ineligible |
| ReplayParser.FoldGivesPanes | core/src/replay.ts:236-292 | folding the recorded frames gives back the lines, and the caret the last frame with one carried |
| ReplayParser.JournalParses | core/src/replay.ts:311-450 | a written journal parses to exactly its records, if no recorded delta has a negative caret column |
| ReplayParser.JournalReplays | core/src/replay.ts:191-213 | every seek then shows the pane recorded last at that time |
| ReplayParser.JournalIsRefused | core/src/replay.ts:401-406 | a recorded delta with a negative caret column makes the parser refuse the file at that line |
| ReplayParser.LostMeaning | core/src/protocol.ts:534-562 | a recorded delta that no receiver accepts is exactly a pane, not the first, with a negative column, no reset, the first line of the one before, and a delta smaller than its full frame |
| ReplayParser.RecordedAsDelta | core/src/protocol.ts:534-562 | a pane is recorded as a delta exactly when it is not the first, resets nothing, shares its first line and is smaller so; the delta leaves out exactly the lines both begin with |
| ReplayParser.ParseMeaning | core/src/replay.ts:311-450 | a journal is accepted exactly when each line reads as the record that came of it, and that record may follow those before |
| ReplayParser.LineIsAccepted | core/src/replay.ts:330-433 | when one record may follow: its session, its time, a full frame first, and deltas that fit the lines shown and save something |
| ReplayParser.RefusalMeaning | core/src/replay.ts:330-433 | what each refusal says of the line |
| ReplayParser.JournalParsesUnlessLost | core/src/replay.ts:311-450 | a written journal parses to exactly its records when no pane is lost, and is refused at the first that is |
| ReplayParser.SomeJournalIsRefused | core/src/replay.ts:401-406 | there are such journals: two captures, the later with its caret left of the pane |
| TerminalControls.StripTerminalControls | core/src/terminal-controls.ts:43-127 | leaves exactly the visible units of the control grammar |
| TerminalControls.StripIsIdempotent | core/src/terminal-controls.ts:43-127 | stripping again changes nothing |
| TerminalControls.ReadersAgree | core/src/terminal-controls.ts:117-124 | stripper and renderer show the same units at the same places exactly when no unknown two-byte control meets an ESC or a surrogate pair in a way they read differently |
| TerminalControls.SameTextMeansSameUnits | core/src/terminal-controls.ts:43-127 | in a row of whole surrogate pairs, with no BEL inside a CSI, they show the same text exactly when they show the same units |
| TerminalControls.SameTextOfOtherUnits | core/src/terminal-controls.ts:117-124 | neither hypothesis can go: two rows outside them where other units make the same text |
| TerminalControls.ShownPairsAreWhole | core/src/terminal-controls.ts:117-124 | the renderer never cuts a surrogate pair; the stripper does exactly where it reads an ESC before one |
| TerminalControls.ReadersAgreeOnOrdinaryRows | core/src/terminal-controls.ts:43-127 | they agree on every row where no ESC stands right before another ESC or a pair |
| TerminalControls.ReadersCanDiffer | core/src/terminal-controls.ts:122-124 | both differences are real |
| TerminalControls.IsBlankToolSeparator | core/src/terminal-controls.ts:11-29 | blank cells and complete SGR paint only |
| TerminalControls.BlankRowShowsBlanks | core/src/terminal-controls.ts:11-29 | such a row shows nothing but blanks to either reader |
| RangeWalker.Walker.SyncActive | core/src/ansi-html.ts:677-703 | the compacted lists hold exactly the ranges that cover the position |
| RangeWalker.Walker.NextBoundary | core/src/ansi-html.ts:706-709 | the next endpoint strictly after the position, for positions that only advance |
| RangeWalker.Walker.HrefAt | core/src/ansi-html.ts:710-720 | the link a rescan would find: the first covering one in input order |
| RangeWalker.Walker.OverlayAt | core/src/ansi-html.ts:721-730 | the highlight a rescan would find: an active match before a plain one |
| RangeWalker.Unique | core/src/ansi-html.ts:659-668 | the endpoints once each, in order |
| RangeWalker.SameHref | core/src/ansi-html.ts:614-626 | between endpoints the covering link does not change |
| AnsiHtml.SegmentIsUniform | core/src/ansi-html.ts:812-845 | every unit of a segment is shown as the segment's first code point is |
| AnsiHtml.NextSegment | core/src/ansi-html.ts:812-855 | one segment: up to the next endpoint, never through a surrogate pair |
| AnsiHtml.AppendText | core/src/ansi-html.ts:799-857 | the segments of a text show every unit as its own code point should be, and cut no pair |
| AnsiHtml.ReadControl | core/src/ansi-html.ts:868-955 | one control: the position behind it and the state it leaves, as `AfterEffect` has it; `AnsiTokens.ControlEffect` says what that is |
| AnsiHtml.LineToHtml | core/src/ansi-html.ts:753-960 | segments concatenate to the attributed units of the row, and the state behind it is left; `AnsiTokens.RowState` and `AnsiTokens.RowIsShown` say what these are |
| TerminalTokens.RowIsTokens | core/src/terminal-controls.ts:43-127 | every row is a list of glyphs and controls of the grammar, for either reader |
| TerminalTokens.GlyphsAreShown | core/src/terminal-controls.ts:43-127 | what a reader shows of a row is its glyphs, in order |
| TerminalTokens.BlankRowIsBlankTokens | core/src/terminal-controls.ts:11-29 | a row is a blank separator exactly when it is blank glyphs and complete SGR controls |
| AnsiTokens.ControlEffect | core/src/ansi-html.ts:868-955 | `CSI … m` applies its parameters to the paint, OSC 8 opens or closes the link, nothing else changes the state |
| AnsiTokens.RowState | core/src/ansi-html.ts:753-955 | the state behind a row is the entry paint under all its SGR parameters in order, and the link its last OSC 8 string leaves open |
| AnsiTokens.RowIsShown | core/src/ansi-html.ts:753-955 | each glyph is shown in the paint and under the open link that the controls in front of it leave, else under the first usable link and the highlight of its column |
| AnsiHtml.UsableKeepOrder | core/src/ansi-html.ts:762-780 | the usable links and highlights are exactly those with a range, in the order given |
| AnsiHtml.RowShowsVisibleText | core/src/ansi-html.ts:859-958 | in any state, with any links and highlights, what is shown is the visible text as the renderer reads it |
| AnsiHtml.RendererShowsStrippedText | core/src/ansi-html.ts:859-958 | which is what the stripper leaves wherever the two read alike, and nowhere else on rows of whole pairs with no BEL inside a CSI |
| CodexTools.SealedBody | core/src/codex-tools.ts:501-557 | finds the end of a sealed body exactly when there is one: details and bridged blanks only, within the limits |
| CodexTools.WaitingPair | core/src/codex-tools.ts:613-653 | finds a finished waiting pair exactly when there is one |
| CodexTools.CompletedIsWellProved | core/src/codex-tools.ts:559-604 | a block built over whole rows carries a complete proof |
| CodexTools.ParseAt | core/src/codex-tools.ts:655-850 | the block that a header announces, exactly when the rows behind it are the evidence it asks for; sealed, within its limits and with a complete proof |
| CodexTools.OneEvidence | core/src/codex-tools.ts:655-850 | one header has evidence for one block at most |
| CodexTools.RowIdsDiffer | core/src/codex-tools.ts:889-894 | blocks of different rows have different ids, whatever their contents |
| CodexTools.DetectCodexToolBlocks | core/src/codex-tools.ts:853-905 | detected blocks are in sequence, each behind a known boundary; no row with a boundary and evidence is missed; the newest are kept |
| CodexTools.DetectedAreAccepted | core/src/codex-tools.ts:853-905 | validation on the same rows accepts all detected blocks and rejects none |
| CodexTools.GuardedRowsAreNotHidden | core/src/codex-tools.ts:458-493 | no guarded row is hidden behind a header |
| CodexEvents.SealedBodyMeaning | core/src/codex-tools.ts:501-557 | a sealed body in terms of its rows: details of its header's kind, blanks that a command goes on behind, and the first blanks it does not |
| CodexEvents.EvidenceMeaning | core/src/codex-tools.ts:655-850 | which rows are the event of each kind of header |
| CodexEvents.BlockMeaning | core/src/codex-tools.ts:559-604 | what a block is filed under, hides, protects and is proved by |
| CodexEvents.FingerprintMeaning | core/src/tool-projection.ts:538-557 | two events have one fingerprint exactly when they are of one kind and outcome and say the same, wherever they stand; below one header, exactly when the rows behind it say the same |
| CodexEvents.WrappingDoesNotCount | core/src/tool-projection.ts:544-554 | saying the same does not depend on where rows without controls were wrapped |
| CodexEvents.FoundAreEvents | core/src/codex-tools.ts:853-906 | every block found is an event behind a certain place, with the id of its row |
| CodexEvents.EventIsFound | core/src/codex-tools.ts:853-906 | every event behind a certain place is found, unless an earlier block holds its row |
| ClaudeBash.HardBoundariesStop | core/src/claude-bash.ts:853-1020 | approvals always reject a candidate, and prompts never let it go on or complete |
| ClaudeBash.ResumeAfterAmbiguousCorridor | core/src/claude-bash.ts:620-634 | a quarantine ends at the newest composer behind the row, or with the scan |
| ClaudeBash.ScanCandidate | core/src/claude-bash.ts:819-1033 | one scan: the ending, the first result row and the pending blanks, as `EndingMeaning`, `FindingsMeaning` and `EndMeaning` have them |
| ClaudeBash.EndingMeaning | core/src/claude-bash.ts:819-1033 | closed exactly by the first row that ends it, all before letting it go on; rejected exactly by a rejecting row or past the limit; open exactly when no row stops it |
| ClaudeBash.FindingsMeaning | core/src/claude-bash.ts:829-1031 | what the scan remembers: the first result row, and whether an unproven status row or a passed boundary stands behind it |
| ClaudeBash.EndMeaning | core/src/claude-bash.ts:1019-1029 | a call that a boundary ends leaves exactly the blank rows in front of it |
| ClaudeBash.ParseCandidate | core/src/claude-bash.ts:802-1115 | a block exactly where `IsCall` holds, which `ClaudeCalls` states in row facts, and else where to go on |
| ClaudeBash.ProtectedPromptContinuationRows | core/src/claude-bash.ts:671-710 | a row is protected exactly when a prompt, or the unknown rows before the scan, is open and nothing has closed it |
| ClaudeBash.DetectClaudeBashBlocks | core/src/claude-bash.ts:1144-1182 | exactly the calls at the rows the scan comes to, in order and disjoint, never in a prompt, the newest kept; the scan ends |
| ClaudeBash.CallRowsMeaning | core/src/claude-bash.ts:1152-1182 | calls are found at exactly the call rows that the scan comes to |
| ClaudeCalls.ClosedCallIsFound | core/src/claude-bash.ts:819-1033 | a header with a result and a first boundary row behind it is a call exactly when that row closes it and there is a command |
| ClaudeCalls.ResultlessCallIsFound | core/src/claude-bash.ts:819-1115 | a header without a result is a call exactly when it is active, its first boundary is a marker or a rule, and there is a command |
| ClaudeCalls.OpenCallIsFound | core/src/claude-bash.ts:1030-1115 | without a boundary row only a running call is found |
| ClaudeCalls.ClosingMeaning | core/src/claude-bash.ts:929-1023 | which boundary rows close a call below a row of which width |
| ClaudeCalls.OutputMeaning | core/src/claude-bash.ts:994-1002 | which are taken for output |
| ClaudeCalls.QuarantineMeaning | core/src/claude-bash.ts:876-962 | behind which everything is put under quarantine |
| ClaudeCalls.DoubtMeaning | core/src/claude-bash.ts:863-869 | a doubtful status row leaves only a repainted one to end a call |
| ClaudeCalls.CallIsDetected | core/src/claude-bash.ts:1144-1182 | a call that the scan comes to is one of those detected, if there is room for all |
| ClaudeCalls.PreviewMeaning | core/src/claude-bash.ts:1058-1113 | the previews begin the command and the output, own up exactly when something is missing, and the fingerprint is that of the whole texts |
| ClaudeCalls.PromptRowsMeaning | core/src/claude-bash.ts:671-710 | no call begins below a prompt echo, or below the upper edge of a partial scan, as far as the next composer or sure header |
| ClaudeBash.PassedOver | core/src/claude-bash.ts:1152-1182 | a row the scan does not come to lies in a call, or in the quarantine of a header it came to |
| ClaudeBash.HiddenRowsAreSafe | core/src/claude-bash.ts:802-1115 | every row of a call behind its header may be owned or is its result; a completed call has a result inside and a boundary row before the end of the capture |
| ClaudeBash.NoHardRowIsHidden | core/src/claude-bash.ts:412-440 | if no approval or prompt row looks like a header, result or status row, no row of a call is an approval or a prompt |
| ClaudeBash.TruncateUtf16 | core/src/claude-bash.ts:755-762 | a preview is a prefix within its limit, says whether it was cut, and never ends inside a surrogate pair |
| ClaudeGroups.EveryMemberKeepsItsShare | core/src/claude-bash.ts:1250-1263 | however long the others are, each member keeps its equal share of the preview or all of its text |
| ClaudeGroups.PreviewKeepsLimit | core/src/claude-bash.ts:1229-1265 | a merged preview keeps its limit, and says it was cut exactly when a member was before or not everything is shown |
| ClaudeGroups.MergedGroupPreview | core/src/claude-bash.ts:1229-1265 | the merged preview, and whether anything in it was cut |
| ClaudeGroups.AcceptedBlocks | core/src/claude-bash.ts:1292-1305 | the usable blocks sorted by start, exactly those kept that overlap none kept before |
| ClaudeGroups.UsableIsAcceptedOrOverlapped | core/src/claude-bash.ts:1292-1305 | every usable block is accepted, or overlaps an accepted one that starts no later |
| ClaudeGroups.ApartAreAccepted | core/src/claude-bash.ts:1292-1305 | blocks that stand apart and in order are all accepted |
| ClaudeGroups.GroupClaudeBashBlocks | core/src/claude-bash.ts:1272-1390 | groups are the runs of the accepted blocks, all of them, joined by blank, unbroken gaps |
| ClaudeGroups.GroupsAreApart | core/src/claude-bash.ts:1334-1364 | groups stay disjoint and in order, the blanks they take in included |
| ClaudeGroups.GroupHidesMembersAndBlanks | core/src/claude-bash.ts:1334-1364 | a group hides nothing but rows of its members and blank rows |
| ClaudeGroups.NeighboursAreGrouped | core/src/claude-bash.ts:1307-1326 | two neighbouring blocks are in one group exactly when only blank rows lie between them, and no break |
| ClaudeGroups.GroupMeaning | core/src/claude-bash.ts:1328-1364 | the blanks on either side are taken in exactly when they are a gap to other rows of the same stretch; a group is active exactly when a member is |
| HistoryStitch.LocateAnchor | server/src/history-stitch.ts:15-31 | the nested loops find the location of the needle |
| HistoryStitch.LocationMeaning | server/src/history-stitch.ts:14-31 | an index exactly when the needle occurs once, ambiguous exactly when it occurs twice |
| HistoryStitch.StitchExtendsPrefix | server/src/history-stitch.ts:57-77 | one capture with the true tail takes the archive to exactly the rows above the screen; deferred and too short steps add nothing; `StitchMeaning` says when they are those |
| HistoryStitch.ArchiveIsPrefix | server/src/history-stitch.ts:57-77 | over any run of such captures the archive stays an exact prefix of the row stream |
| HistoryStitch.StitchMeaning | server/src/history-stitch.ts:57-77 | too short exactly without a row above the screen, deferred exactly when the tail occurs twice, anchored exactly when once; what is appended in each case |
| HistoryStitch.ArchiveReachesGreatest | server/src/history-stitch.ts:57-77 | where the true tail is never in two places, the archive holds exactly the rows up to the last one shown above a screen |
| HistoryStitch.WindowShowsTail | server/src/history-stitch.ts:57-77 | windows on the stream that begin at the tail or before it meet the hypotheses of those results |
| HistoryStitch.LostTailLeavesGap | server/src/history-stitch.ts:67-69 | without its tail in the capture the archive need not stay a prefix |
| HistoryStitch.StaysPrefixExactly | server/src/history-stitch.ts:57-77 | whatever is left of the tail, the archive stays a prefix exactly when the appended rows are the next of the stream; where no row repeats, exactly when they start at its end |
| ActivityPoll.ActivityPoll.CompleteSample | server/src/bun-driver.ts:133-147 | a settling sample changes the poll only if its flight is still installed, and always releases its waiters |
| ActivityPoll.ActivityPoll.RefreshSample | server/src/bun-driver.ts:126-132 | a refresh starts a flight exactly when none is installed and the poll is not stopped |
| ActivityPoll.RunsAreSane | server/src/bun-driver.ts:109-154 | in every interleaving every flight but the installed one has released its waiters, and none is installed while stopped |
| ActivityPoll.PossibleMeaning | server/src/bun-driver.ts:109-154 | the runs considered are exactly those in which a sample settles at most once, after it was started |
| ActivityPoll.WaitersAreReleased | server/src/bun-driver.ts:109-154 | the waiters of a flight still wait exactly while it is installed; it has then neither settled nor been aborted |
| ActivityPoll.InstalledMeansUndisturbed | server/src/bun-driver.ts:115-147 | a flight is installed exactly while nothing has ended it since it was started |
| ActivityPoll.OnlyUndisturbedSamplesShow | server/src/bun-driver.ts:133-147 | value, time and error come from the last undisturbed samples, back to the last invalidation |
| ActivityPoll.StoppedMeansStoppedLast | server/src/bun-driver.ts:151-152 | the poll is stopped exactly when the last stop or resume was a stop |
| HistoryWatchdog.ClockRunsWhileOutstanding | server/src/history-watchdog.ts:84-96 | acknowledgements never overtake submissions, and the clock is null exactly when nothing is outstanding |
| HistoryWatchdog.ClockShowsItsStart | server/src/history-watchdog.ts:78-96 | a running clock shows the time of the last call that started it |
| HistoryWatchdog.TickReportsOnce | server/src/history-watchdog.ts:97-105 | a tick reports a time-out exactly when its clock runs and this is the first tick due since the clock was started |
| HistoryWatchdog.MovementMeansUnmatched | server/src/history-watchdog.ts:73-83 | the stall clock runs exactly while source progress is unmatched |
| HistoryWatchdog.SilenceIsHealthy | server/src/history-watchdog.ts:55-101 | with nothing outstanding and no unmatched progress no tick reports |
| HistoryWatchdog.FieldsAreCounters | server/src/history-watchdog.ts:59-96 | the fields are the last accepted acknowledgement, the accepted submissions, and the highest received and source numbers of the calls |
| HistoryWatchdog.DisorderIsReportedOnce | server/src/history-watchdog.ts:73-105 | the first number out of order is reported as such, and no later one |
| HistoryWatchdog.OtherCallsStaySilent | server/src/history-watchdog.ts:73-105 | a call other than a tick reports nothing but disorder |
| HistoryWatchdog.StreamCaptureWatchdog.OnAck | server/src/history-watchdog.ts:88-96 | one acknowledgement: accepted progress restarts or clears the clock, anything else is reported |
| HistoryWatchdog.StreamCaptureWatchdog.OnTick | server/src/history-watchdog.ts:97-101 | one tick over both clocks |

## Left out

- ToolReconcile.ReconcileToolBlockIds: the detector origins kept beside blocks are arbitrary inputs, and one block object listed twice is two blocks.
- MonotonicSelection.SelectMonotonicIndices: distances are exact integers, so rounding of sums beyond 2^53 is not modelled.
- SearchLines.CollectPlainMatches: asks that lower-casing work unit by unit on ASCII text, and that no query be lowered to nothing, as `toLowerCase` does.
- SearchAnswers.FoundWithoutCase: asks that the row lower code point by code point, which `toLowerCase` does not do to a final sigma.
- CodexEvents.FingerprintMeaning: asks that the digest tell its arguments apart, which two 32-bit hashes only do in practice.
- ReplayParser.JournalParses: frames with `screen`, `boundary` or `newarch` fields are not modelled, because the journal format refuses them.
- ReplayParser.ParseReplayJournal: the shape checks of one JSON record are part of the reader that is taken as given.
- ClaudeBash.DetectClaudeBashBlocks: the screen mode and the clamping of its options are not modelled.
- CodexTools.ParseAt: the order of the header expressions and the paint state of detail rows are inside the row tests.
- HTML escaping, style strings, wide-cell spans and colours of `core/src/ansi-html.ts`: a segment carries its state instead.
- `planPrepend` and the state keys of `core/src/ansi-html.ts`: the key is not injective for links that hold `|`.
- Hashes and serialised sizes: any function; nothing is claimed about collisions.
- Summaries, placeholder texts and the per-block projection of `core/src/claude-bash.ts`: one-branch code beside the grouping.
- Updates in place of plain JavaScript lists are modelled as new sequences where a list is local to one call, so aliasing of such lists is not captured.
- Freezing, cloning and `slice` copies: values cannot be changed behind a caller's back here.
- The heartbeat class `HistoryWatchdog` of `server/src/history-watchdog.ts`: easy members beside the stream watchdog.
- tmux and Bun processes, sockets, routes, storage and components: input and output.
