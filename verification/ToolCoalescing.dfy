/** Joining neighbouring placeholders (`coalesceAdjacentToolProjection` of
    core/src/tool-projection.ts): runs of equal placeholders with nothing but blank rows
    between them become one visual row, under a key that is carried from frame to frame. */
module ToolCoalescing {
  import opened Wrappers
  import opened Text
  import opened TerminalControls
  import opened ToolBlocks
  import opened ToolValidation
  import opened ToolProjection
  import opened FreshKeys

  datatype Group = Group(
    placeholderKey: Text, provider: Provider, line: Text, rawRange: LineRange,
    memberPlaceholderKeys: seq<Text>, blockCount: int)

  // ---- Keys carried from the previous frame --------------------------------------------------

  /** A group whose key can be carried at all. */
  predicate UsableGroup(group: Group) {
    && !TrimsToNothing(group.placeholderKey)
    && group.line != []
    && |group.memberPlaceholderKeys| > 0
    && (forall i, j :: 0 <= i < j < |group.memberPlaceholderKeys| ==>
          group.memberPlaceholderKeys[i] != group.memberPlaceholderKeys[j])
    && (forall i :: 0 <= i < |group.memberPlaceholderKeys| ==> !TrimsToNothing(group.memberPlaceholderKeys[i]))
    && IsSafeInteger(group.rawRange.startLine) && IsSafeInteger(group.rawRange.endLine)
    && group.rawRange.startLine < group.rawRange.endLine
    && IsSafeInteger(group.blockCount) && group.blockCount > 0
  }

  predicate KeyIsUnique(groups: seq<Group>, i: nat)
    requires i < |groups|
  {
    forall j :: 0 <= j < |groups| && j != i ==> groups[j].placeholderKey != groups[i].placeholderKey
  }

  /** The usable groups whose key no other group has, in their order. */
  function ValidPreviousGroups(groups: seq<Group>, n: nat): (valid: seq<Group>)
    requires n <= |groups|
  {
    if n == 0 then []
    else
      var earlier := ValidPreviousGroups(groups, n - 1);
      if UsableGroup(groups[n - 1]) && KeyIsUnique(groups, n - 1) then earlier + [groups[n - 1]] else earlier
  }

  /** They are exactly the usable groups without a namesake, in the order they came in. */
  lemma {:induction false} ValidGroupsInOrder(groups: seq<Group>, n: nat) returns (places: seq<nat>)
    requires n <= |groups|
    ensures forall i: nat :: i in places <==> i < n && UsableGroup(groups[i]) && KeyIsUnique(groups, i)
    ensures forall a, b :: 0 <= a < b < |places| ==> places[a] < places[b]
    ensures |ValidPreviousGroups(groups, n)| == |places|
    ensures forall k :: 0 <= k < |places| ==>
              places[k] in places && ValidPreviousGroups(groups, n)[k] == groups[places[k]]
  {
    places := [];
    if n > 0 {
      hide UsableGroup, KeyIsUnique;
      places := ValidGroupsInOrder(groups, n - 1);
      assert forall k :: 0 <= k < |places| ==> places[k] in places && places[k] < n - 1;
      if UsableGroup(groups[n - 1]) && KeyIsUnique(groups, n - 1) {
        places := places + [n - 1];
      }
    }
  }

  ghost predicate GroupKeysDiffer(groups: seq<Group>) {
    forall a, b :: 0 <= a < b < |groups| ==> groups[a].placeholderKey != groups[b].placeholderKey
  }

  lemma ValidGroupsDiffer(groups: seq<Group>)
    ensures GroupKeysDiffer(ValidPreviousGroups(groups, |groups|))
  {
    var places := ValidGroupsInOrder(groups, |groups|);
    hide UsableGroup, ValidPreviousGroups;
  }

  /** Exactly one previous group has the member key. */
  ghost predicate OwnedBy(previous: seq<Group>, key: Text, i: nat) {
    && i < |previous| && key in previous[i].memberPlaceholderKeys
    && forall j: nat :: j < |previous| && j != i ==> key !in previous[j].memberPlaceholderKeys
  }

  ghost predicate HasMember(previous: seq<Group>, i: nat, key: Text) {
    i < |previous| && key in previous[i].memberPlaceholderKeys
  }

  /** What the first `n` groups say of one key: its first owner, and whether there is another. */
  ghost predicate KnownOwner(previous: seq<Group>, n: nat, first: map<Text, nat>, ambiguous: set<Text>, key: Text) {
    if key in first then
      && first[key] < n && HasMember(previous, first[key], key)
      && (key in ambiguous <==> exists j: nat :: j < n && j != first[key] && HasMember(previous, j, key))
    else
      key !in ambiguous && forall j: nat :: j < n ==> !HasMember(previous, j, key)
  }

  method OwnersOfMembers(previous: seq<Group>) returns (owners: map<Text, nat>)
    ensures forall key, i: nat :: (key in owners && owners[key] == i) <==> OwnedBy(previous, key, i)
  {
    var first: map<Text, nat> := map[];
    var ambiguous: set<Text> := {};
    for p := 0 to |previous|
      invariant forall key :: KnownOwner(previous, p, first, ambiguous, key)
    {
      var keys := previous[p].memberPlaceholderKeys;
      var members := set key | key in keys;
      var ambiguous' := ambiguous + (set key | key in members && key in first);
      var first' := first + (map key | key in members && key !in first :: p);
      ghost var n := p + 1;
      forall key ensures KnownOwner(previous, n, first', ambiguous', key) {
        OwnerStep(previous, p, first, ambiguous, first', ambiguous', key);
      }
      first, ambiguous := first', ambiguous';
    }
    owners := map key | key in first && key !in ambiguous :: first[key];
    forall key, i: nat ensures (key in owners && owners[key] == i) <==> OwnedBy(previous, key, i) {
      assert KnownOwner(previous, |previous|, first, ambiguous, key);
      OwnerIsOwner(previous, first, ambiguous, key, i);
    }
  }

  lemma OwnerStep(previous: seq<Group>, p: nat, first: map<Text, nat>, ambiguous: set<Text>,
                  first': map<Text, nat>, ambiguous': set<Text>, key: Text)
    requires p < |previous| && KnownOwner(previous, p, first, ambiguous, key)
    requires key in ambiguous' <==> key in ambiguous || (HasMember(previous, p, key) && key in first)
    requires key in first' <==> key in first || HasMember(previous, p, key)
    requires key in first' ==> first'[key] == if key in first then first[key] else p
    ensures KnownOwner(previous, p + 1, first', ambiguous', key)
  {
    if key in first && exists j: nat :: j < p && j != first[key] && HasMember(previous, j, key) {
      var j: nat :| j < p && j != first[key] && HasMember(previous, j, key);
      assert j < p + 1;
    }
  }

  lemma OwnerIsOwner(previous: seq<Group>, first: map<Text, nat>, ambiguous: set<Text>, key: Text, i: nat)
    requires KnownOwner(previous, |previous|, first, ambiguous, key)
    ensures (key in first && key !in ambiguous && first[key] == i) <==> OwnedBy(previous, key, i)
  {
    forall j: nat ensures HasMember(previous, j, key) <==> j < |previous| && key in previous[j].memberPlaceholderKeys {
    }
    if OwnedBy(previous, key, i) {
      assert HasMember(previous, i, key);
    }
  }

  /** What a run of placeholders brings to key assignment. */
  datatype RunText = RunText(provider: Provider, line: Text, memberKeys: seq<Text>)

  /** Previous group `i` may hand its key to the candidate: they share a member that no other
      previous group has, and show the same text for the same provider. */
  ghost predicate MayCarry(previous: seq<Group>, candidate: RunText, i: nat) {
    && i < |previous|
    && previous[i].provider == candidate.provider && previous[i].line == candidate.line
    && exists key :: key in candidate.memberKeys && OwnedBy(previous, key, i)
  }

  /** The earliest previous group after `floor` that may hand its key on. */
  ghost predicate IsEarliestCarrier(previous: seq<Group>, candidate: RunText, floor: int, chosen: Option<nat>) {
    match chosen
    case None => forall i: nat :: floor < i ==> !MayCarry(previous, candidate, i)
    case Some(c) => floor < c && MayCarry(previous, candidate, c)
                    && forall i: nat :: floor < i && MayCarry(previous, candidate, i) ==> c <= i
  }

  method EarliestCarrier(previous: seq<Group>, owners: map<Text, nat>, candidate: RunText, floor: int)
    returns (chosen: Option<nat>)
    requires forall key, i: nat :: (key in owners && owners[key] == i) <==> OwnedBy(previous, key, i)
    ensures IsEarliestCarrier(previous, candidate, floor, chosen)
  {
    chosen := None;
    for m := 0 to |candidate.memberKeys|
      invariant chosen.Some? ==> floor < chosen.value && MayCarry(previous, candidate, chosen.value)
      invariant forall k, i: nat ::
                  (0 <= k < m && floor < i && OwnedBy(previous, candidate.memberKeys[k], i)
                   && previous[i].provider == candidate.provider && previous[i].line == candidate.line) ==>
                  chosen.Some? && chosen.value <= i
    {
      var key := candidate.memberKeys[m];
      if key in owners {
        var i := owners[key];
        assert OwnedBy(previous, key, i);
        if floor < i && previous[i].provider == candidate.provider && previous[i].line == candidate.line {
          assert MayCarry(previous, candidate, i);
          if chosen.None? || i < chosen.value {
            chosen := Some(i);
          }
        }
      }
    }
    forall i: nat | floor < i && MayCarry(previous, candidate, i) ensures chosen.Some? && chosen.value <= i {
      var key :| key in candidate.memberKeys && OwnedBy(previous, key, i);
      var k :| 0 <= k < |candidate.memberKeys| && candidate.memberKeys[k] == key;
    }
  }

  /** Where the last carried index before candidate `n` stands. */
  function Floor(carriers: seq<Option<nat>>, n: nat): int
    requires n <= |carriers|
  {
    if n == 0 then -1
    else if carriers[n - 1].Some? then carriers[n - 1].value
    else Floor(carriers, n - 1)
  }

  /** Each candidate in turn takes the earliest previous group behind those already taken. */
  ghost predicate CarriesInOrder(previous: seq<Group>, candidates: seq<RunText>, carriers: seq<Option<nat>>) {
    && |carriers| <= |candidates|
    && forall c :: 0 <= c < |carriers| ==>
         IsEarliestCarrier(previous, candidates[c], Floor(carriers, c), carriers[c])
  }

  lemma FloorOfPrefix(carriers: seq<Option<nat>>, more: Option<nat>, n: nat)
    requires n <= |carriers|
    ensures Floor(carriers + [more], n) == Floor(carriers, n)
  {
    if n > 0 && carriers[n - 1].None? { FloorOfPrefix(carriers, more, n - 1); }
  }

  /** Carried groups come in the previous frame's order, so no two candidates get the same one. */
  lemma {:induction false} CarriedInOrder(previous: seq<Group>, candidates: seq<RunText>, carriers: seq<Option<nat>>,
      a: nat, n: nat)
    requires CarriesInOrder(previous, candidates, carriers)
    requires a < n <= |carriers| && carriers[a].Some?
    ensures carriers[a].value <= Floor(carriers, n)
    ensures n < |carriers| && carriers[n].Some? ==> carriers[a].value < carriers[n].value
    decreases n
  {
    if a < n - 1 {
      CarriedInOrder(previous, candidates, carriers, a, n - 1);
    }
    if n < |carriers| {
      assert IsEarliestCarrier(previous, candidates[n], Floor(carriers, n), carriers[n]);
    }
  }

  method AssignCarriers(previous: seq<Group>, candidates: seq<RunText>) returns (carriers: seq<Option<nat>>)
    ensures |carriers| == |candidates| && CarriesInOrder(previous, candidates, carriers)
  {
    var owners := OwnersOfMembers(previous);
    carriers := [];
    var previousFloor: int := -1;
    for c := 0 to |candidates|
      invariant |carriers| == c && CarriesInOrder(previous, candidates, carriers)
      invariant previousFloor == Floor(carriers, c)
    {
      var chosen := EarliestCarrier(previous, owners, candidates[c], previousFloor);
      ghost var before := carriers;
      carriers := carriers + [chosen];
      forall k | 0 <= k <= c ensures Floor(carriers, k) == Floor(before, k) {
        FloorOfPrefix(before, chosen, k);
      }
      if chosen.Some? {
        previousFloor := chosen.value;
      }
    }
  }

  function GroupSeparator(): Text {
    Ascii(":group-")
  }

  lemma GroupSeparatorEnds()
    ensures var s := GroupSeparator(); |s| > 0 && s[|s| - 1] == 0x2d
  {
  }

  ghost predicate PairwiseDistinct(keys: seq<Text>) {
    forall a, b :: 0 <= a < b < |keys| ==> keys[a] != keys[b]
  }

  ghost predicate CarriedDistinct(carried: seq<Option<Text>>) {
    forall a, b :: 0 <= a < b < |carried| && carried[a].Some? && carried[b].Some? ==> carried[a] != carried[b]
  }

  ghost predicate IsTaken(reserved: set<Text>, before: seq<Text>, key: Text) {
    key in reserved || key in before
  }

  /** The base under the first number that gives a key neither reserved nor in use. */
  ghost predicate IsFirstFree(base: Text, reserved: set<Text>, before: seq<Text>, key: Text) {
    && !IsTaken(reserved, before, key)
    && exists n: nat :: key == Candidate(base, GroupSeparator(), n)
         && forall k: nat :: k < n ==> IsTaken(reserved, before, Candidate(base, GroupSeparator(), k))
  }

  lemma FirstFreeIsAwayFrom(base: Text, reserved: set<Text>, taken: set<Text>, before: seq<Text>, key: Text, n: nat)
    requires forall t :: t in taken <==> IsTaken(reserved, before, t)
    requires key == Candidate(base, GroupSeparator(), n) && key !in taken
    requires forall k: nat :: k < n ==> Candidate(base, GroupSeparator(), k) in taken
    ensures IsFirstFree(base, reserved, before, key)
  {
  }

  /** Complete a list of carried keys: a candidate without one gets the first free number on
      its first member's key, away from every key in use or reserved. */
  method CompleteKeys(candidates: seq<RunText>, carried: seq<Option<Text>>, reserved: set<Text>)
    returns (keys: seq<Text>)
    requires |carried| == |candidates| && CarriedDistinct(carried)
    requires forall c :: 0 <= c < |candidates| ==> |candidates[c].memberKeys| > 0
    requires forall c :: 0 <= c < |carried| && carried[c].Some? ==> carried[c].value in reserved
    ensures |keys| == |candidates| && PairwiseDistinct(keys)
    ensures forall c :: 0 <= c < |keys| ==>
              if carried[c].Some? then keys[c] == carried[c].value
              else IsFirstFree(candidates[c].memberKeys[0], reserved, keys[..c], keys[c])
  {
    GroupSeparatorEnds();
    hide GroupSeparator;
    var minted: set<Text> := {};
    keys := [];
    for c := 0 to |candidates|
      invariant |keys| == c && PairwiseDistinct(keys)
      invariant minted !! reserved
      invariant forall k :: 0 <= k < c ==>
                  if carried[k].Some? then keys[k] == carried[k].value
                  else keys[k] in minted && IsFirstFree(candidates[k].memberKeys[0], reserved, keys[..k], keys[k])
      invariant forall t :: t in minted + reserved <==> IsTaken(reserved, keys, t)
    {
      var key;
      if carried[c].Some? {
        key := carried[c].value;
      } else {
        var suffix;
        key, suffix := FreshKey(candidates[c].memberKeys[0], GroupSeparator(), minted + reserved);
        FirstFreeIsAwayFrom(candidates[c].memberKeys[0], reserved, minted + reserved, keys, key, suffix);
        minted := minted + {key};
      }
      assert forall k :: 0 <= k < c ==> (keys + [key])[..k] == keys[..k];
      assert (keys + [key])[..c] == keys;
      keys := keys + [key];
    }
  }

  /** Keys for all candidates: carried from the previous frame where proven, otherwise fresh. */
  method AssignToolPlaceholderGroupKeys(candidates: seq<RunText>, previousGroups: seq<Group>)
    returns (keys: seq<Text>, ghost carriers: seq<Option<nat>>)
    requires forall c :: 0 <= c < |candidates| ==> |candidates[c].memberKeys| > 0
    ensures |keys| == |carriers| == |candidates|
    ensures PairwiseDistinct(keys)
    ensures KeysCarried(ValidPreviousGroups(previousGroups, |previousGroups|), candidates, keys, carriers)
  {
    var previous := ValidPreviousGroups(previousGroups, |previousGroups|);
    ValidGroupsDiffer(previousGroups);
    var found := AssignCarriers(previous, candidates);
    carriers := found;
    CarriersInRange(previous, candidates, found);
    CarriedKeysDistinct(previous, candidates, found);
    var carried := seq(|found|, c requires 0 <= c < |found| =>
      if found[c].Some? then Some(previous[found[c].value].placeholderKey) else None);
    hide CarriesInOrder, IsFirstFree;
    keys := CompleteKeys(candidates, carried, KeysOf(previous));
  }

  function KeysOf(groups: seq<Group>): (keys: set<Text>)
    ensures forall i :: 0 <= i < |groups| ==> groups[i].placeholderKey in keys
  {
    set i | 0 <= i < |groups| :: groups[i].placeholderKey
  }

  /** Carried keys belong to previous groups taken in order; a fresh key is the first free one
      on the candidate's first member. */
  ghost predicate KeysCarried(previous: seq<Group>, candidates: seq<RunText>, keys: seq<Text>,
      carriers: seq<Option<nat>>) {
    && |keys| == |carriers|
    && CarriesInOrder(previous, candidates, carriers)
    && forall c :: 0 <= c < |keys| ==>
         match carriers[c]
         case Some(i) => i < |previous| && keys[c] == previous[i].placeholderKey
         case None => |candidates[c].memberKeys| > 0
                      && IsFirstFree(candidates[c].memberKeys[0], KeysOf(previous), keys[..c], keys[c])
  }

  lemma CarriersInRange(previous: seq<Group>, candidates: seq<RunText>, carriers: seq<Option<nat>>)
    requires CarriesInOrder(previous, candidates, carriers)
    ensures forall c :: 0 <= c < |carriers| && carriers[c].Some? ==> carriers[c].value < |previous|
  {
    forall c | 0 <= c < |carriers| && carriers[c].Some? ensures carriers[c].value < |previous| {
      assert IsEarliestCarrier(previous, candidates[c], Floor(carriers, c), carriers[c]);
    }
  }

  lemma CarriedKeysDistinct(previous: seq<Group>, candidates: seq<RunText>, carried: seq<Option<nat>>)
    requires CarriesInOrder(previous, candidates, carried)
    requires GroupKeysDiffer(previous)
    requires forall c :: 0 <= c < |carried| && carried[c].Some? ==> carried[c].value < |previous|
    ensures forall a, b :: 0 <= a < b < |carried| && carried[a].Some? && carried[b].Some? ==>
              previous[carried[a].value].placeholderKey != previous[carried[b].value].placeholderKey
  {
    forall a, b | 0 <= a < b < |carried| && carried[a].Some? && carried[b].Some?
      ensures carried[a].value < carried[b].value
    {
      CarriedInOrder(previous, candidates, carried, a, b);
    }
  }

  // ---- Runs of placeholders -------------------------------------------------------------------------

  predicate IsToolRow(p: Projection, i: nat) {
    i < |p.rows| && p.rows[i].kind.ToolPlaceholder? && p.rows[i].block.Some? && p.rows[i].placeholderKey.Some?
  }

  predicate RowIsConsistent(row: Row, n: nat) {
    && ValidRange(row.rawRange, n)
    && row.rawStart == row.rawRange.startLine && row.rawEndExclusive == row.rawRange.endLine
    && match row.kind
       case ToolPlaceholder => row.block.Some? && row.placeholderKey.Some? && row.placeholderKey.value != []
       case Raw => row.block.None? && row.placeholderKey.None?
  }

  /** The projection is complete and its placeholders can be told apart. */
  ghost predicate CoversSource(p: Projection) {
    && Tile(p.rows, 0, |p.rawLines|)
    && (forall i :: 0 <= i < |p.rows| ==> RowIsConsistent(p.rows[i], |p.rawLines|))
    && (forall i: nat, j: nat :: i < j && IsToolRow(p, i) && IsToolRow(p, j) ==>
          p.rows[i].placeholderKey != p.rows[j].placeholderKey)
  }

  function EndOfRows(p: Projection, i: nat): int
    requires i <= |p.rows|
  {
    if i == 0 then 0 else p.rows[i - 1].rawRange.endLine
  }

  method ProjectionRowsCoverRawSource(p: Projection) returns (covers: bool)
    ensures covers <==> CoversSource(p)
  {
    hide Tile, RowIsConsistent;
    var cursor := 0;
    var memberKeys: set<Text> := {};
    NothingCovers(p);
    for i := 0 to |p.rows|
      invariant cursor == EndOfRows(p, i) && Tile(p.rows[..i], 0, cursor)
      invariant forall k :: 0 <= k < i ==> RowIsConsistent(p.rows[k], |p.rawLines|)
      invariant forall key :: key in memberKeys <==> KeyBelow(p, i, key)
      invariant forall k: nat, l: nat :: k < l < i && IsToolRow(p, k) && IsToolRow(p, l) ==>
                  p.rows[k].placeholderKey != p.rows[l].placeholderKey
    {
      var row := p.rows[i];
      if !RowIsConsistent(row, |p.rawLines|) {
        return false;
      }
      if row.rawRange.startLine != cursor {
        CoveringRowsMeet(p, i);
        return false;
      }
      RowContinues(p, i, cursor);
      if row.kind.ToolPlaceholder? {
        if row.placeholderKey.value in memberKeys {
          return false;
        }
        memberKeys := memberKeys + {row.placeholderKey.value};
      }
      cursor := row.rawRange.endLine;
    }
    assert p.rows[..|p.rows|] == p.rows;
    covers := cursor == |p.rawLines|;
    if CoversSource(p) { CoveringRowsMeet(p, |p.rows|); }
  }

  /** A placeholder row below `n` has the key. */
  ghost predicate KeyBelow(p: Projection, n: nat, key: Text) {
    exists k: nat :: k < n && IsToolRow(p, k) && p.rows[k].placeholderKey == Some(key)
  }

  lemma NothingCovers(p: Projection)
    ensures Tile(p.rows[..0], 0, 0)
  {
  }

  lemma RowContinues(p: Projection, i: nat, cursor: int)
    requires i < |p.rows| && Tile(p.rows[..i], 0, cursor)
    requires RowIsConsistent(p.rows[i], |p.rawLines|) && p.rows[i].rawRange.startLine == cursor
    ensures Tile(p.rows[..i + 1], 0, p.rows[i].rawRange.endLine)
    ensures p.rows[i].kind.ToolPlaceholder? <==> IsToolRow(p, i)
    ensures forall key :: KeyBelow(p, i + 1, key) <==>
              KeyBelow(p, i, key) || (IsToolRow(p, i) && p.rows[i].placeholderKey == Some(key))
  {
    assert p.rows[..i + 1] == p.rows[..i] + [p.rows[i]];
    TileExtends(p.rows[..i], 0, cursor, p.rows[i]);
    hide Tile, KeyBelow;
    forall key
      ensures KeyBelow(p, i + 1, key) <==>
                KeyBelow(p, i, key) || (IsToolRow(p, i) && p.rows[i].placeholderKey == Some(key))
    {
      KeyOfRow(p, i, key);
    }
  }

  lemma KeyOfRow(p: Projection, i: nat, key: Text)
    requires i < |p.rows|
    ensures KeyBelow(p, i + 1, key) <==>
              KeyBelow(p, i, key) || (IsToolRow(p, i) && p.rows[i].placeholderKey == Some(key))
  {
    hide IsToolRow;
    if KeyBelow(p, i, key) {
      var k: nat :| k < i && IsToolRow(p, k) && p.rows[k].placeholderKey == Some(key);
      assert k < i + 1;
    }
  }

  lemma CoveringRowsMeet(p: Projection, i: nat)
    requires i <= |p.rows|
    ensures Tile(p.rows, 0, |p.rawLines|) ==>
              EndOfRows(p, i) == if i < |p.rows| then p.rows[i].rawRange.startLine else |p.rawLines|
  {
    if Tile(p.rows, 0, |p.rawLines|) {
      if 0 < i {
        TileInOrder(p.rows, 0, |p.rawLines|, i - 1, if i < |p.rows| then i else i - 1);
      } else if i < |p.rows| {
        TileInOrder(p.rows, 0, |p.rawLines|, i, i);
      } else {
        TileStretches(p.rows, 0, |p.rawLines|);
      }
    }
  }

  /** What projecting produced is always fit to be coalesced. */
  lemma ProjectionsCoverSource(rawLines: seq<Text>, accepted: seq<Block>, placeholder: PlaceholderContext -> Text,
      p: Projection)
    requires IsProjection(rawLines, accepted, placeholder, p) && InSequence(accepted, |rawLines|)
    requires |rawLines| <= MAX_SAFE_INTEGER
    ensures CoversSource(p)
  {
    hide Tile, InSequence, Locates, PlaceholderKey;
    forall i | 0 <= i < |p.rows| ensures RowIsConsistent(p.rows[i], |rawLines|) {
      TileInOrder(p.rows, 0, |rawLines|, i, i);
      if IsPlaceholderRow(accepted, placeholder, p.rows[i], i) {
        var b: nat, k: nat :| IsPlaceholder(accepted, placeholder, p.rows[i], i, b, k);
        PlaceholderKeyIsNotEmpty(accepted[b], k);
      }
    }
    forall i: nat, j: nat | i < j && IsToolRow(p, i) && IsToolRow(p, j)
      ensures p.rows[i].placeholderKey != p.rows[j].placeholderKey
    {
      TileInOrder(p.rows, 0, |rawLines|, i, j);
      assert IsPlaceholderRow(accepted, placeholder, p.rows[i], i)
          && IsPlaceholderRow(accepted, placeholder, p.rows[j], j);
      var b: nat, k: nat :| IsPlaceholder(accepted, placeholder, p.rows[i], i, b, k);
      var b': nat, k': nat :| IsPlaceholder(accepted, placeholder, p.rows[j], j, b', k');
      if p.rows[i].placeholderKey == p.rows[j].placeholderKey {
        PlaceholderKeysDiffer(accepted, |rawLines|, b, k, b', k');
      }
    }
  }

  lemma PlaceholderKeyIsNotEmpty(block: Block, k: nat)
    ensures PlaceholderKey(block, k) != []
  {
    assert |Ascii("tool-placeholder:")| > 0;
  }

  /** The gap between two placeholder rows may be swallowed: no barrier in or at it, no hard
      range into it, and every row in it is a blank separator. */
  predicate JoinableGap(p: Projection, previous: nat, next: nat, barriers: set<int>, hardRanges: seq<LineRange>)
    requires previous < next < |p.rows|
  {
    var gapStart, gapEnd := p.rows[previous].rawRange.endLine, p.rows[next].rawRange.startLine;
    && gapStart <= gapEnd
    && (forall barrier :: barrier in barriers ==> !(gapStart <= barrier <= gapEnd))
    && (forall h :: 0 <= h < |hardRanges| ==> !Overlaps(hardRanges[h], LineRange(gapStart, gapEnd)))
    && (forall i :: previous < i < next ==>
          && p.rows[i].kind.Raw?
          && forall r :: p.rows[i].rawRange.startLine <= r < p.rows[i].rawRange.endLine && 0 <= r < |p.rawLines| ==>
               IsBlankRow(p.rawLines[r]))
  }

  datatype PlaceholderRun = PlaceholderRun(startRow: nat, endRow: nat, provider: Provider, line: Text,
      members: seq<nat>)

  predicate Resembles(p: Projection, i: nat, provider: Provider, line: Text) {
    IsToolRow(p, i) && p.rows[i].block.value.provider == provider && p.rows[i].line == line
  }

  /** Each member joined to the one before it. */
  ghost predicate Linked(p: Projection, barriers: set<int>, hardRanges: seq<LineRange>, members: seq<nat>) {
    if |members| <= 1 then true
    else
      var last := |members| - 1;
      && members[last - 1] < members[last] < |p.rows|
      && JoinableGap(p, members[last - 1], members[last], barriers, hardRanges)
      && Linked(p, barriers, hardRanges, members[..last])
  }

  /** A run: placeholders of one provider and text, each joined to the next. */
  ghost predicate IsRun(p: Projection, barriers: set<int>, hardRanges: seq<LineRange>, run: PlaceholderRun) {
    && |run.members| > 0
    && run.members[0] == run.startRow <= run.endRow == run.members[|run.members| - 1] < |p.rows|
    && (forall m :: 0 <= m < |run.members| ==> Resembles(p, run.members[m], run.provider, run.line))
    && (|run.members| > 1 ==> run.line != [])
    && Linked(p, barriers, hardRanges, run.members)
  }

  /** Placeholder row `next` could have been added to the run. */
  ghost predicate CouldJoin(p: Projection, barriers: set<int>, hardRanges: seq<LineRange>, run: PlaceholderRun,
      next: nat) {
    && run.endRow < next < |p.rows|
    && run.line != [] && Resembles(p, next, run.provider, run.line)
    && JoinableGap(p, run.endRow, next, barriers, hardRanges)
  }

  ghost predicate NoToolRows(p: Projection, from: int, to: nat) {
    forall i: nat :: from <= i < to ==> !IsToolRow(p, i)
  }

  /** The runs of the rows below `n`: in order, together holding every placeholder row, and
      none that its successor could have joined. */
  ghost predicate RunsUpTo(p: Projection, barriers: set<int>, hardRanges: seq<LineRange>, runs: seq<PlaceholderRun>,
      n: nat)
    decreases |runs|
  {
    if runs == [] then
      NoToolRows(p, 0, n)
    else
      var rest, last := runs[..|runs| - 1], runs[|runs| - 1];
      && IsRun(p, barriers, hardRanges, last) && last.endRow < n && NoToolRows(p, last.endRow + 1, n)
      && (|rest| > 0 ==> !CouldJoin(p, barriers, hardRanges, rest[|rest| - 1], last.startRow))
      && RunsUpTo(p, barriers, hardRanges, rest, last.startRow)
  }

  lemma RunGrows(p: Projection, barriers: set<int>, hardRanges: seq<LineRange>, run: PlaceholderRun, n: nat)
    requires IsRun(p, barriers, hardRanges, run) && CouldJoin(p, barriers, hardRanges, run, n)
    ensures IsRun(p, barriers, hardRanges, run.(endRow := n, members := run.members + [n]))
  {
    hide JoinableGap;
    assert (run.members + [n])[..|run.members|] == run.members;
  }

  lemma LastRunGrows(p: Projection, barriers: set<int>, hardRanges: seq<LineRange>, runs: seq<PlaceholderRun>, n: nat)
    requires |runs| > 0 && RunsUpTo(p, barriers, hardRanges, runs, n)
    requires CouldJoin(p, barriers, hardRanges, runs[|runs| - 1], n)
    ensures var run := runs[|runs| - 1];
            RunsUpTo(p, barriers, hardRanges,
                     runs[..|runs| - 1] + [run.(endRow := n, members := run.members + [n])], n + 1)
  {
    hide JoinableGap, IsRun;
    var rest, run := runs[..|runs| - 1], runs[|runs| - 1];
    RunGrows(p, barriers, hardRanges, run, n);
    var longer := run.(endRow := n, members := run.members + [n]);
    assert (rest + [longer])[..|rest|] == rest;
  }

  lemma RunBegins(p: Projection, barriers: set<int>, hardRanges: seq<LineRange>, runs: seq<PlaceholderRun>, n: nat)
    requires n < |p.rows| && RunsUpTo(p, barriers, hardRanges, runs, n) && IsToolRow(p, n)
    requires |runs| > 0 ==> !CouldJoin(p, barriers, hardRanges, runs[|runs| - 1], n)
    ensures RunsUpTo(p, barriers, hardRanges, runs + [SingleRun(p, n)], n + 1)
  {
    hide JoinableGap;
    assert (runs + [SingleRun(p, n)])[..|runs|] == runs;
  }

  function SingleRun(p: Projection, n: nat): PlaceholderRun
    requires IsToolRow(p, n)
  {
    PlaceholderRun(n, n, p.rows[n].block.value.provider, p.rows[n].line, [n])
  }

  method CollectRuns(p: Projection, barriers: set<int>, hardRanges: seq<LineRange>) returns (runs: seq<PlaceholderRun>)
    requires CoversSource(p)
    ensures RunsUpTo(p, barriers, hardRanges, runs, |p.rows|)
  {
    hide JoinableGap, IsRun, CouldJoin;
    runs := [];
    for rowIndex := 0 to |p.rows|
      invariant RunsUpTo(p, barriers, hardRanges, runs, rowIndex)
    {
      assert RowIsConsistent(p.rows[rowIndex], |p.rawLines|);
      if p.rows[rowIndex].kind.ToolPlaceholder? {
        var joins := false;
        if |runs| > 0 {
          joins := Joins(p, barriers, hardRanges, runs[|runs| - 1], rowIndex);
        }
        if joins {
          LastRunGrows(p, barriers, hardRanges, runs, rowIndex);
          var current := runs[|runs| - 1];
          runs := runs[..|runs| - 1] + [current.(endRow := rowIndex, members := current.members + [rowIndex])];
        } else {
          RunBegins(p, barriers, hardRanges, runs, rowIndex);
          runs := runs + [SingleRun(p, rowIndex)];
        }
      }
    }
  }

  method Joins(p: Projection, barriers: set<int>, hardRanges: seq<LineRange>, run: PlaceholderRun, next: nat)
    returns (joins: bool)
    requires run.endRow < next < |p.rows| && IsToolRow(p, next)
    ensures joins <==> CouldJoin(p, barriers, hardRanges, run, next)
  {
    return run.provider == p.rows[next].block.value.provider && run.line != [] && run.line == p.rows[next].line
        && JoinableGap(p, run.endRow, next, barriers, hardRanges);
  }

  // ---- The coalesced rows ------------------------------------------------------------------------------

  datatype GroupedRow = GroupedRow(row: Row, blockCount: int, placeholderGroup: Option<Group>)

  datatype GroupedProjection = GroupedProjection(
    rawLines: seq<Text>, lines: seq<Text>, rows: seq<GroupedRow>,
    visualToRawRange: seq<LineRange>, rawToVisualRow: seq<nat>,
    projectedBlocks: seq<Block>, rejectedBlocks: seq<Rejection>, hiddenLineCount: int)

  function KeyAt(p: Projection, i: nat): Text
    requires IsToolRow(p, i)
  {
    p.rows[i].placeholderKey.value
  }

  function BlockIdAt(p: Projection, i: nat): Text
    requires IsToolRow(p, i)
  {
    p.rows[i].block.value.id
  }

  function MemberKeys(p: Projection, members: seq<nat>): (keys: seq<Text>)
    requires forall m :: 0 <= m < |members| ==> IsToolRow(p, members[m])
    ensures |keys| == |members|
  {
    seq(|members|, m requires 0 <= m < |members| => KeyAt(p, members[m]))
  }

  function BlockIds(p: Projection, members: seq<nat>): set<Text>
    requires forall m :: 0 <= m < |members| ==> IsToolRow(p, members[m])
  {
    set m | 0 <= m < |members| :: BlockIdAt(p, members[m])
  }

  predicate MembersAreToolRows(p: Projection, run: PlaceholderRun) {
    && |run.members| > 0
    && run.members[0] == run.startRow < |p.rows| && run.members[|run.members| - 1] == run.endRow < |p.rows|
    && forall m :: 0 <= m < |run.members| ==> IsToolRow(p, run.members[m])
  }

  function GroupOf(p: Projection, run: PlaceholderRun, key: Text): Group
    requires MembersAreToolRows(p, run)
  {
    Group(key, run.provider, run.line,
          LineRange(p.rows[run.startRow].rawRange.startLine, p.rows[run.endRow].rawRange.endLine),
          MemberKeys(p, run.members), |BlockIds(p, run.members)|)
  }

  /** The visual row of a run: its only member under the group's key, or one row for them all. */
  function GroupRow(p: Projection, run: PlaceholderRun, key: Text, visualRow: nat): GroupedRow
    requires MembersAreToolRows(p, run)
  {
    var group := GroupOf(p, run, key);
    var row :=
      if |run.members| == 1 then p.rows[run.startRow].(visualRow := visualRow, placeholderKey := Some(key))
      else Row(visualRow, ToolPlaceholder, group.line, group.rawRange.startLine, group.rawRange.endLine,
               group.rawRange, None, None, Some(key));
    GroupedRow(row, group.blockCount, Some(group))
  }

  function KeptRow(p: Projection, i: nat, visualRow: nat): GroupedRow
    requires i < |p.rows|
  {
    GroupedRow(p.rows[i].(visualRow := visualRow), 0, None)
  }

  function PlainRows(rows: seq<GroupedRow>): (plain: seq<Row>)
    ensures |plain| == |rows|
  {
    seq(|rows|, v requires 0 <= v < |rows| => rows[v].row)
  }

  /** The first visual rows stand for the source rows below `rowIndex`: each is one raw row,
      or the whole of the next run. */
  ghost predicate OutputUpTo(p: Projection, runs: seq<PlaceholderRun>, keys: seq<Text>, out: seq<GroupedRow>,
                             next: nat, rowIndex: nat)
    decreases |out|
  {
    if out == [] then next == 0 && rowIndex == 0
    else
      var v := |out| - 1;
      || (0 < rowIndex <= |p.rows| && p.rows[rowIndex - 1].kind.Raw? && out[v] == KeptRow(p, rowIndex - 1, v)
          && OutputUpTo(p, runs, keys, out[..v], next, rowIndex - 1))
      || (0 < next <= |runs| && next <= |keys| && MembersAreToolRows(p, runs[next - 1])
          && rowIndex == runs[next - 1].endRow + 1
          && out[v] == GroupRow(p, runs[next - 1], keys[next - 1], v)
          && OutputUpTo(p, runs, keys, out[..v], next - 1, runs[next - 1].startRow))
  }

  lemma RunHasToolRows(p: Projection, barriers: set<int>, hardRanges: seq<LineRange>, run: PlaceholderRun)
    requires IsRun(p, barriers, hardRanges, run)
    ensures MembersAreToolRows(p, run)
  {
  }

  /** Runs lie in order below `n`. */
  lemma {:induction false} RunsInOrder(p: Projection, barriers: set<int>, hardRanges: seq<LineRange>,
                                       runs: seq<PlaceholderRun>, n: nat, c: nat, d: nat)
    requires RunsUpTo(p, barriers, hardRanges, runs, n) && c <= d < |runs|
    ensures IsRun(p, barriers, hardRanges, runs[c]) && runs[c].startRow <= runs[c].endRow < n
    ensures c < d ==> runs[c].endRow < runs[d].startRow
    decreases |runs|
  {
    hide IsRun;
    var rest, last := runs[..|runs| - 1], runs[|runs| - 1];
    assert last.startRow <= last.endRow by { RunStartsFirst(p, barriers, hardRanges, last); }
    if c < |rest| {
      RunsInOrder(p, barriers, hardRanges, rest, last.startRow, c, if d < |rest| then d else |rest| - 1);
    }
  }

  lemma RunStartsFirst(p: Projection, barriers: set<int>, hardRanges: seq<LineRange>, run: PlaceholderRun)
    requires IsRun(p, barriers, hardRanges, run)
    ensures run.startRow <= run.endRow
  {
  }

  /** A placeholder row lies within some run. */
  lemma {:induction false} ToolRowIsInRun(p: Projection, barriers: set<int>, hardRanges: seq<LineRange>,
                                          runs: seq<PlaceholderRun>, n: nat, i: nat) returns (c: nat)
    requires RunsUpTo(p, barriers, hardRanges, runs, n) && i < n && IsToolRow(p, i)
    ensures c < |runs| && runs[c].startRow <= i <= runs[c].endRow
    decreases |runs|
  {
    hide IsRun;
    var last := runs[|runs| - 1];
    if i >= last.startRow {
      c := |runs| - 1;
    } else {
      c := ToolRowIsInRun(p, barriers, hardRanges, runs[..|runs| - 1], last.startRow, i);
    }
  }

  /** Between two runs there are only raw rows. */
  lemma RowBetweenRunsIsRaw(p: Projection, barriers: set<int>, hardRanges: seq<LineRange>,
                            runs: seq<PlaceholderRun>, next: nat, rowIndex: nat)
    requires CoversSource(p) && RunsUpTo(p, barriers, hardRanges, runs, |p.rows|)
    requires rowIndex < |p.rows| && next <= |runs|
    requires next > 0 ==> runs[next - 1].endRow < rowIndex
    requires next < |runs| ==> rowIndex < runs[next].startRow
    ensures p.rows[rowIndex].kind.Raw?
  {
    hide IsRun;
    assert RowIsConsistent(p.rows[rowIndex], |p.rawLines|);
    if IsToolRow(p, rowIndex) {
      var c := ToolRowIsInRun(p, barriers, hardRanges, runs, |p.rows|, rowIndex);
      if c < next {
        RunsInOrder(p, barriers, hardRanges, runs, |p.rows|, c, next - 1);
        RunsInOrder(p, barriers, hardRanges, runs, |p.rows|, next - 1, next - 1);
      } else {
        RunsInOrder(p, barriers, hardRanges, runs, |p.rows|, next, c);
      }
    }
  }

  lemma OutputKeeps(p: Projection, runs: seq<PlaceholderRun>, keys: seq<Text>, out: seq<GroupedRow>, next: nat,
      rowIndex: nat)
    requires OutputUpTo(p, runs, keys, out, next, rowIndex) && rowIndex < |p.rows| && p.rows[rowIndex].kind.Raw?
    ensures OutputUpTo(p, runs, keys, out + [KeptRow(p, rowIndex, |out|)], next, rowIndex + 1)
  {
    var row := KeptRow(p, rowIndex, |out|);
    hide GroupRow, KeptRow, MembersAreToolRows;
    var longer := out + [row];
    assert longer[..|out|] == out && longer[|out|] == row;
  }

  lemma OutputGroups(p: Projection, runs: seq<PlaceholderRun>, keys: seq<Text>, out: seq<GroupedRow>, next: nat,
      rowIndex: nat)
    requires OutputUpTo(p, runs, keys, out, next, rowIndex)
    requires next < |runs| && next < |keys| && MembersAreToolRows(p, runs[next]) && runs[next].startRow == rowIndex
    ensures OutputUpTo(p, runs, keys, out + [GroupRow(p, runs[next], keys[next], |out|)], next + 1,
            runs[next].endRow + 1)
  {
    var row := GroupRow(p, runs[next], keys[next], |out|);
    hide GroupRow, KeptRow, MembersAreToolRows;
    var longer := out + [row];
    assert longer[..|out|] == out && longer[|out|] == row;
  }

  /** Coalesced rows still tile the source. */
  lemma PlainRowsExtend(out: seq<GroupedRow>, to: int, row: GroupedRow)
    requires Tile(PlainRows(out), 0, to) && row.row.rawRange.startLine == to < row.row.rawRange.endLine
    ensures Tile(PlainRows(out + [row]), 0, row.row.rawRange.endLine)
    ensures RawLength(PlainRows(out + [row])) == RawLength(PlainRows(out))
              + if row.row.kind.Raw? then row.row.rawRange.endLine - to else 0
  {
    assert PlainRows(out + [row]) == PlainRows(out) + [row.row];
    TileExtends(PlainRows(out), 0, to, row.row);
    assert (PlainRows(out) + [row.row])[..|out|] == PlainRows(out);
  }

  // ---- The routine ---------------------------------------------------------------------------------------

  function IdentityGrouping(p: Projection): GroupedProjection {
    var rows := seq(|p.rows|, v requires 0 <= v < |p.rows| =>
      GroupedRow(p.rows[v], if p.rows[v].kind.ToolPlaceholder? then 1 else 0, None));
    GroupedProjection(p.rawLines, p.lines, rows, p.visualToRawRange, p.rawToVisualRow,
                      p.projectedBlocks, p.rejectedBlocks, p.hiddenLineCount)
  }

  /** Barriers that lie on the source. */
  function BarrierSet(barrierLines: seq<int>, n: nat): set<int> {
    set line | line in barrierLines && IsSafeInteger(line) && 0 <= line <= n
  }

  function ProtectedOf(blocks: seq<Block>): seq<LineRange> {
    if blocks == [] then [] else blocks[0].protectedRanges + ProtectedOf(blocks[1..])
  }

  function RejectedSources(rejected: seq<Rejection>, n: nat): seq<LineRange> {
    if rejected == [] then []
    else
      var source := rejected[0].block.sourceRange;
      (if ValidRange(source, n) then [source] else []) + RejectedSources(rejected[1..], n)
  }

  /** Rows that must stay visible: protected by a projected block, or in a rejected one. */
  function HardRanges(p: Projection): seq<LineRange> {
    ProtectedOf(p.projectedBlocks) + RejectedSources(p.rejectedBlocks, |p.rawLines|)
  }

  function RunTextOf(p: Projection, run: PlaceholderRun): RunText
    requires MembersAreToolRows(p, run)
  {
    RunText(run.provider, run.line, MemberKeys(p, run.members))
  }

  function RunTexts(p: Projection, runs: seq<PlaceholderRun>): (texts: seq<RunText>)
    requires forall c :: 0 <= c < |runs| ==> MembersAreToolRows(p, runs[c])
    ensures |texts| == |runs|
  {
    seq(|runs|, c requires 0 <= c < |runs| => RunTextOf(p, runs[c]))
  }

  /** How many source lines are shown as themselves. */
  function RawLength(rows: seq<Row>): int {
    if rows == [] then 0
    else
      var last := rows[|rows| - 1];
      RawLength(rows[..|rows| - 1]) + if last.kind.Raw? then last.rawRange.endLine - last.rawRange.startLine else 0
  }

  /** A coalesced projection built on `runs` under `keys`. */
  ghost predicate IsGrouping(p: Projection, runs: seq<PlaceholderRun>, keys: seq<Text>, g: GroupedProjection) {
    && g.rawLines == p.rawLines
    && g.projectedBlocks == p.projectedBlocks && g.rejectedBlocks == p.rejectedBlocks
    && OutputUpTo(p, runs, keys, g.rows, |runs|, |p.rows|)
    && Tile(PlainRows(g.rows), 0, |p.rawLines|)
    && Locates(g.rawToVisualRow, PlainRows(g.rows), |p.rawLines|)
    && g.lines == RowLines(PlainRows(g.rows)) && g.visualToRawRange == RowRanges(PlainRows(g.rows))
    && g.hiddenLineCount == |p.rawLines| - RawLength(PlainRows(g.rows))
  }

  lemma AllRunsHaveToolRows(p: Projection, barriers: set<int>, hardRanges: seq<LineRange>, runs: seq<PlaceholderRun>)
    requires RunsUpTo(p, barriers, hardRanges, runs, |p.rows|)
    ensures forall c :: 0 <= c < |runs| ==>
              MembersAreToolRows(p, runs[c]) && runs[c].startRow <= runs[c].endRow < |p.rows|
  {
    forall c | 0 <= c < |runs|
      ensures MembersAreToolRows(p, runs[c]) && runs[c].startRow <= runs[c].endRow < |p.rows|
    {
      RunsInOrder(p, barriers, hardRanges, runs, |p.rows|, c, c);
      RunHasToolRows(p, barriers, hardRanges, runs[c]);
    }
  }

  /** Progress of the output loop. */
  ghost predicate GroupedTo(p: Projection, runs: seq<PlaceholderRun>, keys: seq<Text>,
                            rows: seq<GroupedRow>, located: seq<nat>, next: nat, rowIndex: nat) {
    && rowIndex <= |p.rows| && next <= |runs|
    && (next > 0 ==> runs[next - 1].endRow < rowIndex)
    && (next < |runs| ==> rowIndex <= runs[next].startRow)
    && OutputUpTo(p, runs, keys, rows, next, rowIndex)
    && Tile(PlainRows(rows), 0, EndOfRows(p, rowIndex))
    && |located| == |p.rawLines|
    && LocatedTo(located, rows, EndOfRows(p, rowIndex))
  }

  /** The source rows below `to` point at the visual rows that hold them. */
  ghost predicate LocatedTo(located: seq<nat>, rows: seq<GroupedRow>, to: int) {
    forall r: nat :: r < to ==> r < |located| && located[r] < |rows| && Holds(rows[located[r]].row.rawRange, r)
  }

  /** The rows of `range` now point at `visualRow`, the others where they did. */
  ghost predicate Relocated(located: seq<nat>, relocated: seq<nat>, range: LineRange, visualRow: nat) {
    && |relocated| == |located|
    && forall r: nat :: r < |located| ==> relocated[r] == if Holds(range, r) then visualRow else located[r]
  }

  lemma GroupedNothing(p: Projection, runs: seq<PlaceholderRun>, keys: seq<Text>, located: seq<nat>)
    requires |located| == |p.rawLines|
    ensures GroupedTo(p, runs, keys, [], located, 0, 0)
  {
    assert PlainRows([]) == [];
  }

  /** Extend by the row for source rows `rowIndex` to `last`: it begins where the rows so far end. */
  lemma GroupedStep(p: Projection, rows: seq<GroupedRow>, located: seq<nat>, relocated: seq<nat>, rowIndex: nat,
      last: nat, row: GroupedRow)
    requires CoversSource(p) && rowIndex <= last < |p.rows|
    requires Tile(PlainRows(rows), 0, EndOfRows(p, rowIndex)) && |located| == |p.rawLines|
    requires row.row.rawRange == LineRange(p.rows[rowIndex].rawRange.startLine, p.rows[last].rawRange.endLine)
    requires LocatedTo(located, rows, EndOfRows(p, rowIndex))
    requires Relocated(located, relocated, row.row.rawRange, |rows|)
    ensures Tile(PlainRows(rows + [row]), 0, EndOfRows(p, last + 1))
    ensures RawLength(PlainRows(rows + [row])) == RawLength(PlainRows(rows))
              + if row.row.kind.Raw? then EndOfRows(p, last + 1) - EndOfRows(p, rowIndex) else 0
    ensures |relocated| == |located| && LocatedTo(relocated, rows + [row], EndOfRows(p, last + 1))
  {
    CoveringRowsMeet(p, rowIndex);
    TileInOrder(p.rows, 0, |p.rawLines|, rowIndex, last);
    PlainRowsExtend(rows, EndOfRows(p, rowIndex), row);
    TileInOrder(p.rows, 0, |p.rawLines|, last, last);
  }

  method FillLocated(located: seq<nat>, range: LineRange, visualRow: nat) returns (relocated: seq<nat>)
    requires 0 <= range.startLine <= range.endLine <= |located|
    ensures Relocated(located, relocated, range, visualRow)
  {
    relocated := located;
    for rawRow := range.startLine to range.endLine
      invariant |relocated| == |located|
      invariant forall r: nat :: r < |located| ==>
                  relocated[r] == if range.startLine <= r < rawRow then visualRow else located[r]
    {
      relocated := relocated[rawRow := visualRow];
    }
  }

  lemma StepToRun(p: Projection, barriers: set<int>, hardRanges: seq<LineRange>, runs: seq<PlaceholderRun>,
      keys: seq<Text>,
                  rows: seq<GroupedRow>, located: seq<nat>, relocated: seq<nat>, next: nat, rowIndex: nat)
    requires CoversSource(p) && RunsUpTo(p, barriers, hardRanges, runs, |p.rows|) && |keys| == |runs|
    requires GroupedTo(p, runs, keys, rows, located, next, rowIndex)
    requires next < |runs| && runs[next].startRow == rowIndex && MembersAreToolRows(p, runs[next])
    requires Relocated(located, relocated, GroupRow(p, runs[next], keys[next], |rows|).row.rawRange, |rows|)
    ensures var longer := rows + [GroupRow(p, runs[next], keys[next], |rows|)];
            && rowIndex < runs[next].endRow + 1
            && GroupedTo(p, runs, keys, longer, relocated, next + 1, runs[next].endRow + 1)
            && RawLength(PlainRows(longer)) == RawLength(PlainRows(rows))
  {
    hide Tile, OutputUpTo, RunsUpTo, CoversSource, RawLength, IsToolRow, LocatedTo, Relocated;
    var row := GroupRow(p, runs[next], keys[next], |rows|);
    OutputGroups(p, runs, keys, rows, next, rowIndex);
    RunsInOrder(p, barriers, hardRanges, runs, |p.rows|, next, if next + 1 < |runs| then next + 1 else next);
    GroupRowRange(p, runs[next], keys[next], |rows|);
    GroupedStep(p, rows, located, relocated, rowIndex, runs[next].endRow, row);
  }

  lemma StepToKept(p: Projection, barriers: set<int>, hardRanges: seq<LineRange>, runs: seq<PlaceholderRun>,
      keys: seq<Text>,
                   rows: seq<GroupedRow>, located: seq<nat>, relocated: seq<nat>, next: nat, rowIndex: nat)
    requires CoversSource(p) && RunsUpTo(p, barriers, hardRanges, runs, |p.rows|)
    requires GroupedTo(p, runs, keys, rows, located, next, rowIndex)
    requires rowIndex < |p.rows| && (next < |runs| ==> runs[next].startRow != rowIndex)
    requires Relocated(located, relocated, p.rows[rowIndex].rawRange, |rows|)
    ensures var longer := rows + [KeptRow(p, rowIndex, |rows|)];
            && GroupedTo(p, runs, keys, longer, relocated, next, rowIndex + 1)
            && RawLength(PlainRows(longer)) - RawLength(PlainRows(rows)) ==
                EndOfRows(p, rowIndex + 1) - EndOfRows(p, rowIndex)
  {
    hide Tile, OutputUpTo, RunsUpTo, CoversSource, RawLength, LocatedTo, Relocated;
    RowBetweenRunsIsRaw(p, barriers, hardRanges, runs, next, rowIndex);
    OutputKeeps(p, runs, keys, rows, next, rowIndex);
    GroupedStep(p, rows, located, relocated, rowIndex, rowIndex, KeptRow(p, rowIndex, |rows|));
  }

  /** Emit one visual row: the run that begins here, or the raw row here. */
  method EmitRow(p: Projection, ghost barriers: set<int>, ghost hardRanges: seq<LineRange>,
                 runs: seq<PlaceholderRun>, keys: seq<Text>, ghost rows: seq<GroupedRow>, visualRow: nat,
                 located: seq<nat>, next: nat, rowIndex: nat)
    returns (row: GroupedRow, relocated: seq<nat>, next': nat, rowIndex': nat, hiddenHere: int)
    requires CoversSource(p) && RunsUpTo(p, barriers, hardRanges, runs, |p.rows|) && |keys| == |runs|
    requires forall c :: 0 <= c < |runs| ==>
               MembersAreToolRows(p, runs[c]) && runs[c].startRow <= runs[c].endRow < |p.rows|
    requires rowIndex < |p.rows| && visualRow == |rows| && next <= |runs|
    requires GroupedTo(p, runs, keys, rows, located, next, rowIndex)
    ensures rowIndex < rowIndex' <= |p.rows| && next' <= |runs|
    ensures GroupedTo(p, runs, keys, rows + [row], relocated, next', rowIndex')
    ensures hiddenHere == EndOfRows(p, rowIndex') - EndOfRows(p, rowIndex)
              - (RawLength(PlainRows(rows + [row])) - RawLength(PlainRows(rows)))
  {
    hide Tile, OutputUpTo, RunsUpTo, CoversSource, IsToolRow, RawLength, LocatedTo, Relocated, PlainRows;
    assert |located| == |p.rawLines|;
    hide GroupedTo;
    if next < |runs| && runs[next].startRow == rowIndex {
      row := GroupRow(p, runs[next], keys[next], visualRow);
      GroupRowRange(p, runs[next], keys[next], visualRow);
      RangesInSource(p, rowIndex, runs[next].endRow);
      relocated := FillLocated(located, row.row.rawRange, visualRow);
      StepToRun(p, barriers, hardRanges, runs, keys, rows, located, relocated, next, rowIndex);
      hiddenHere := row.row.rawRange.endLine - row.row.rawRange.startLine;
      rowIndex' := runs[next].endRow + 1;
      next' := next + 1;
    } else {
      row := KeptRow(p, rowIndex, visualRow);
      RangesInSource(p, rowIndex, rowIndex);
      relocated := FillLocated(located, p.rows[rowIndex].rawRange, visualRow);
      StepToKept(p, barriers, hardRanges, runs, keys, rows, located, relocated, next, rowIndex);
      hiddenHere := 0;
      rowIndex' := rowIndex + 1;
      next' := next;
    }
  }

  method GroupRows(p: Projection, ghost barriers: set<int>, ghost hardRanges: seq<LineRange>,
                   runs: seq<PlaceholderRun>, keys: seq<Text>)
    returns (rows: seq<GroupedRow>, rawToVisualRow: seq<nat>, hiddenLineCount: int)
    requires CoversSource(p) && RunsUpTo(p, barriers, hardRanges, runs, |p.rows|) && |keys| == |runs|
    ensures GroupedTo(p, runs, keys, rows, rawToVisualRow, |runs|, |p.rows|)
    ensures hiddenLineCount == |p.rawLines| - RawLength(PlainRows(rows))
  {
    AllRunsHaveToolRows(p, barriers, hardRanges, runs);
    CoveringRowsMeet(p, |p.rows|);
    rows := [];
    var located: seq<nat> := seq(|p.rawLines|, _ => 0);
    hiddenLineCount := 0;
    var rowIndex: nat, next: nat := 0, 0;
    GroupedNothing(p, runs, keys, located);
    assert RawLength(PlainRows([])) == 0;
    hide RunsUpTo, CoversSource, GroupedTo, MembersAreToolRows, RawLength, PlainRows;
    while rowIndex < |p.rows|
      invariant rowIndex <= |p.rows| && next <= |runs|
      invariant GroupedTo(p, runs, keys, rows, located, next, rowIndex)
      invariant hiddenLineCount == EndOfRows(p, rowIndex) - RawLength(PlainRows(rows))
      decreases |p.rows| - rowIndex
    {
      var row, hiddenHere;
      row, located, next, rowIndex, hiddenHere :=
        EmitRow(p, barriers, hardRanges, runs, keys, rows, |rows|, located, next, rowIndex);
      rows := rows + [row];
      hiddenLineCount := hiddenLineCount + hiddenHere;
    }
    AllRunsDone(p, barriers, hardRanges, runs, keys, rows, located, next);
    rawToVisualRow := located;
  }

  lemma AllRunsDone(p: Projection, barriers: set<int>, hardRanges: seq<LineRange>, runs: seq<PlaceholderRun>,
      keys: seq<Text>,
                    rows: seq<GroupedRow>, located: seq<nat>, next: nat)
    requires RunsUpTo(p, barriers, hardRanges, runs, |p.rows|)
    requires GroupedTo(p, runs, keys, rows, located, next, |p.rows|)
    ensures next == |runs|
  {
    if next < |runs| {
      RunsInOrder(p, barriers, hardRanges, runs, |p.rows|, next, next);
    }
  }

  lemma GroupRowRange(p: Projection, run: PlaceholderRun, key: Text, visualRow: nat)
    requires MembersAreToolRows(p, run)
    ensures var row := GroupRow(p, run, key, visualRow).row;
            && row.rawRange == LineRange(p.rows[run.startRow].rawRange.startLine, p.rows[run.endRow].rawRange.endLine)
            && row.kind.ToolPlaceholder?
  {
    assert IsToolRow(p, run.members[0]);
  }

  lemma RangesInSource(p: Projection, first: nat, last: nat)
    requires CoversSource(p) && first <= last < |p.rows|
    ensures 0 <= p.rows[first].rawRange.startLine < p.rows[last].rawRange.endLine <= |p.rawLines|
    ensures EndOfRows(p, first) == p.rows[first].rawRange.startLine
  {
    TileInOrder(p.rows, 0, |p.rawLines|, first, last);
    TileInOrder(p.rows, 0, |p.rawLines|, last, last);
    CoveringRowsMeet(p, first);
  }

  /** Join every run of placeholders that nothing separates, and keep everything else. */
  method CoalesceAdjacentToolProjection(p: Projection, barrierLines: seq<int>, previousGroups: seq<Group>)
    returns (g: GroupedProjection, ghost runs: seq<PlaceholderRun>, ghost keys: seq<Text>,
        ghost carriers: seq<Option<nat>>)
    ensures g.rawLines == p.rawLines
            && (CoversSource(p) && !NoToolRows(p, 0, |p.rows|) ==> Tile(PlainRows(g.rows), 0, |p.rawLines|))
    ensures if !CoversSource(p) || NoToolRows(p, 0, |p.rows|) then
              g == IdentityGrouping(p)
            else
              && RunsUpTo(p, BarrierSet(barrierLines, |p.rawLines|), HardRanges(p), runs, |p.rows|)
              && (forall c :: 0 <= c < |runs| ==> MembersAreToolRows(p, runs[c]))
              && IsGrouping(p, runs, keys, g)
              && |keys| == |runs| && PairwiseDistinct(keys)
              && KeysCarried(ValidPreviousGroups(previousGroups, |previousGroups|), RunTexts(p, runs), keys, carriers)
  {
    runs, keys, carriers := [], [], [];
    var covers := ProjectionRowsCoverRawSource(p);
    if |p.rows| == 0 || !covers {
      return IdentityGrouping(p), runs, keys, carriers;
    }
    var barriers, hardRanges := BarrierSet(barrierLines, |p.rawLines|), HardRanges(p);
    var found := CollectRuns(p, barriers, hardRanges);
    runs := found;
    hide HardRanges, BarrierSet, CoversSource, KeysCarried, GroupedTo, OutputUpTo, IsToolRow;
    NoRunsNoToolRows(p, barriers, hardRanges, found);
    if |found| == 0 {
      return IdentityGrouping(p), runs, keys, carriers;
    }
    AllRunsHaveToolRows(p, barriers, hardRanges, found);
    var texts := RunTexts(p, found);
    assert forall c :: 0 <= c < |texts| ==> texts[c] == RunTextOf(p, found[c]);
    var groupKeys, from := AssignToolPlaceholderGroupKeys(texts, previousGroups);
    keys, carriers := groupKeys, from;
    var rows, rawToVisualRow, hiddenLineCount := GroupRows(p, barriers, hardRanges, found, groupKeys);
    g := GroupedProjection(p.rawLines, RowLines(PlainRows(rows)), rows, RowRanges(PlainRows(rows)), rawToVisualRow,
                           p.projectedBlocks, p.rejectedBlocks, hiddenLineCount);
    GroupedIsGrouping(p, found, groupKeys, g);
  }

  lemma GroupedIsGrouping(p: Projection, runs: seq<PlaceholderRun>, keys: seq<Text>, g: GroupedProjection)
    requires CoversSource(p) && GroupedTo(p, runs, keys, g.rows, g.rawToVisualRow, |runs|, |p.rows|)
    requires g.rawLines == p.rawLines && g.projectedBlocks == p.projectedBlocks && g.rejectedBlocks == p.rejectedBlocks
    requires g.lines == RowLines(PlainRows(g.rows)) && g.visualToRawRange == RowRanges(PlainRows(g.rows))
    requires g.hiddenLineCount == |p.rawLines| - RawLength(PlainRows(g.rows))
    ensures IsGrouping(p, runs, keys, g)
  {
    CoveringRowsMeet(p, |p.rows|);
  }

  lemma NoRunsNoToolRows(p: Projection, barriers: set<int>, hardRanges: seq<LineRange>, runs: seq<PlaceholderRun>)
    requires RunsUpTo(p, barriers, hardRanges, runs, |p.rows|)
    ensures runs == [] <==> NoToolRows(p, 0, |p.rows|)
  {
    if runs != [] {
      AllRunsHaveToolRows(p, barriers, hardRanges, runs);
      assert IsToolRow(p, runs[0].members[0]);
    }
  }

  // ---- What joining never does ------------------------------------------------------------------------------

  /** A row inside a run is a member, or lies in a gap that joining was allowed to swallow. */
  lemma {:induction false} RowInRun(p: Projection, barriers: set<int>, hardRanges: seq<LineRange>, members: seq<nat>,
      i: nat)
    returns (m: nat)
    requires Linked(p, barriers, hardRanges, members) && |members| > 0
    requires members[0] <= i <= members[|members| - 1]
    ensures m < |members|
    ensures members[m] == i || (m > 0 && members[m - 1] < i < members[m] < |p.rows|
              && JoinableGap(p, members[m - 1], members[m], barriers, hardRanges))
    decreases |members|
  {
    hide JoinableGap;
    var last := |members| - 1;
    if i == members[last] {
      m := last;
    } else if last > 0 && members[last - 1] < i {
      m := last;
    } else {
      m := RowInRun(p, barriers, hardRanges, members[..last], i);
    }
  }

  /** A source line that a joined row swallows, and that was not a placeholder before, is a
      blank separator outside every hard range. */
  lemma SwallowedLinesAreBlank(p: Projection, barriers: set<int>, hardRanges: seq<LineRange>, run: PlaceholderRun,
      i: nat, r: nat)
    requires CoversSource(p) && IsRun(p, barriers, hardRanges, run)
    requires run.startRow <= i <= run.endRow && p.rows[i].kind.Raw? && Holds(p.rows[i].rawRange, r)
    ensures r < |p.rawLines| && IsBlankRow(p.rawLines[r]) && !Covered(hardRanges, r)
  {
    hide Tile;
    var m := RowInRun(p, barriers, hardRanges, run.members, i);
    assert Resembles(p, run.members[m], run.provider, run.line);
    var before, after := run.members[m - 1], run.members[m];
    TileInOrder(p.rows, 0, |p.rawLines|, before, i);
    TileInOrder(p.rows, 0, |p.rawLines|, i, after);
    forall h | 0 <= h < |hardRanges| ensures !Holds(hardRanges[h], r) {
      assert !Overlaps(hardRanges[h], LineRange(p.rows[before].rawRange.endLine, p.rows[after].rawRange.startLine));
    }
  }

  /** A barrier within a joined row lies inside one of the placeholders it was joined from. */
  lemma BarriersStayInsideMembers(p: Projection, barriers: set<int>, hardRanges: seq<LineRange>, run: PlaceholderRun,
      barrier: int)
    returns (m: nat)
    requires CoversSource(p) && IsRun(p, barriers, hardRanges, run) && barrier in barriers
    requires p.rows[run.startRow].rawRange.startLine < barrier < p.rows[run.endRow].rawRange.endLine
    ensures m < |run.members| && run.members[m] < |p.rows|
    ensures var range := p.rows[run.members[m]].rawRange; range.startLine < barrier < range.endLine
  {
    m := BarrierInMember(p, barriers, hardRanges, run.members, barrier);
  }

  lemma {:induction false} BarrierInMember(p: Projection, barriers: set<int>, hardRanges: seq<LineRange>,
      members: seq<nat>, barrier: int)
    returns (m: nat)
    requires CoversSource(p) && Linked(p, barriers, hardRanges, members) && |members| > 0
    requires members[0] < |p.rows| && members[|members| - 1] < |p.rows| && barrier in barriers
    requires p.rows[members[0]].rawRange.startLine < barrier < p.rows[members[|members| - 1]].rawRange.endLine
    ensures m < |members| && members[m] < |p.rows|
    ensures var range := p.rows[members[m]].rawRange; range.startLine < barrier < range.endLine
    decreases |members|
  {
    hide CoversSource;
    var last := |members| - 1;
    if last == 0 || p.rows[members[last]].rawRange.startLine < barrier {
      m := last;
    } else {
      assert barrier < p.rows[members[last - 1]].rawRange.endLine;
      m := BarrierInMember(p, barriers, hardRanges, members[..last], barrier);
    }
  }

  lemma {:induction false} ProtectedIsHard(blocks: seq<Block>, b: nat, r: int)
    requires b < |blocks| && Covered(blocks[b].protectedRanges, r)
    ensures Covered(ProtectedOf(blocks), r)
    decreases |blocks|
  {
    var front, rest := blocks[0].protectedRanges, ProtectedOf(blocks[1..]);
    if b == 0 {
      CoveredByEither(front, rest, r);
    } else {
      ProtectedIsHard(blocks[1..], b - 1, r);
      CoveredByEither(front, rest, r);
    }
  }

  lemma CoveredByEither(a: seq<LineRange>, b: seq<LineRange>, r: int)
    ensures Covered(a + b, r) <==> Covered(a, r) || Covered(b, r)
  {
    assert forall i :: 0 <= i < |a| ==> (a + b)[i] == a[i];
    assert forall i :: 0 <= i < |b| ==> (a + b)[|a| + i] == b[i];
    if Covered(a + b, r) {
      var i :| 0 <= i < |a + b| && Holds((a + b)[i], r);
      assert if i < |a| then (a + b)[i] == a[i] else (a + b)[i] == b[i - |a|];
    }
  }

  /** What a visual row of the output stands for. */
  lemma {:induction false} OutputRowStandsFor(p: Projection, runs: seq<PlaceholderRun>, keys: seq<Text>,
      out: seq<GroupedRow>,
                                              next: nat, rowIndex: nat, v: nat) returns (c: nat, i: nat)
    requires OutputUpTo(p, runs, keys, out, next, rowIndex) && v < |out|
    ensures || (i < |p.rows| && p.rows[i].kind.Raw? && out[v] == KeptRow(p, i, v))
            || (c < |runs| && c < |keys| && MembersAreToolRows(p, runs[c])
                && out[v] == GroupRow(p, runs[c], keys[c], v))
    decreases |out|
  {
    hide GroupRow, KeptRow, MembersAreToolRows;
    var last := |out| - 1;
    c, i := 0, 0;
    if rowIndex > 0 && rowIndex <= |p.rows| && p.rows[rowIndex - 1].kind.Raw?
        && out[last] == KeptRow(p, rowIndex - 1, last)
       && OutputUpTo(p, runs, keys, out[..last], next, rowIndex - 1) {
      if v == last { i := rowIndex - 1; } else { c,
          i := OutputRowStandsFor(p, runs, keys, out[..last], next, rowIndex - 1, v); }
    } else {
      if v == last { c := next - 1; }
      else { c, i := OutputRowStandsFor(p, runs, keys, out[..last], next - 1, runs[next - 1].startRow, v); }
    }
  }

  /** A source line that was shown as itself and is in a hard range is still shown as itself. */
  lemma CoveredLinesStayShown(rawLines: seq<Text>, placeholder: PlaceholderContext -> Text, p: Projection,
                              barriers: set<int>, runs: seq<PlaceholderRun>, keys: seq<Text>, g: GroupedProjection,
                              r: nat)
    requires IsProjection(rawLines, p.projectedBlocks, placeholder, p) && InSequence(p.projectedBlocks, |rawLines|)
    requires CoversSource(p) && RunsUpTo(p, barriers, HardRanges(p), runs, |p.rows|)
    requires IsGrouping(p, runs, keys, g)
    requires r < |rawLines| && p.rows[p.rawToVisualRow[r]].kind.Raw? && Covered(HardRanges(p), r)
    ensures g.rows[g.rawToVisualRow[r]].row == RawRow(g.rawToVisualRow[r], rawLines, r)
  {
    var i, v := p.rawToVisualRow[r], g.rawToVisualRow[r];
    assert p.rows[i].kind.Raw? && Holds(p.rows[i].rawRange, r);
    assert Holds(PlainRows(g.rows)[v].rawRange, r);
    var c, k := OutputRowStandsFor(p, runs, keys, g.rows, |runs|, |p.rows|, v);
    hide CoversSource, RunsUpTo, HardRanges, IsGrouping, InSequence, IsProjection, GroupRow, MembersAreToolRows, IsRun;
    if k < |p.rows| && p.rows[k].kind.Raw? && g.rows[v] == KeptRow(p, k, v) {
      RawRowHoldsItself(rawLines, placeholder, p, k, r);
    } else {
      RunsInOrder(p, barriers, HardRanges(p), runs, |p.rows|, c, c);
      GroupRowRange(p, runs[c], keys[c], v);
      HeldLineIsNotHard(p, barriers, HardRanges(p), runs[c], i, r);
    }
  }

  /** A protected source line was shown as itself, and still is. */
  lemma ProtectedLinesStayShown(rawLines: seq<Text>, placeholder: PlaceholderContext -> Text, p: Projection,
                                barriers: set<int>, runs: seq<PlaceholderRun>, keys: seq<Text>, g: GroupedProjection,
                                b: nat, r: nat)
    requires IsProjection(rawLines, p.projectedBlocks, placeholder, p) && InSequence(p.projectedBlocks, |rawLines|)
    requires CoversSource(p) && RunsUpTo(p, barriers, HardRanges(p), runs, |p.rows|)
    requires IsGrouping(p, runs, keys, g)
    requires b < |p.projectedBlocks| && Covered(p.projectedBlocks[b].protectedRanges, r)
    ensures r < |rawLines| && g.rows[g.rawToVisualRow[r]].row == RawRow(g.rawToVisualRow[r], rawLines, r)
  {
    ProtectedRowsStayRaw(rawLines, p.projectedBlocks, placeholder, p, b, r);
    assert Covered(HardRanges(p), r) by {
      ProtectedIsHard(p.projectedBlocks, b, r);
      CoveredByEither(ProtectedOf(p.projectedBlocks), RejectedSources(p.rejectedBlocks, |p.rawLines|), r);
    }
    hide HardRanges;
    CoveredLinesStayShown(rawLines, placeholder, p, barriers, runs, keys, g, r);
  }

  /** A line that was shown as itself, and now falls within a joined row, is in no hard range. */
  lemma HeldLineIsNotHard(p: Projection, barriers: set<int>, hardRanges: seq<LineRange>, run: PlaceholderRun, i: nat,
      r: nat)
    requires CoversSource(p) && IsRun(p, barriers, hardRanges, run)
    requires i < |p.rows| && p.rows[i].kind.Raw? && Holds(p.rows[i].rawRange, r)
    requires p.rows[run.startRow].rawRange.startLine <= r < p.rows[run.endRow].rawRange.endLine
    ensures !Covered(hardRanges, r)
  {
    RowIndexInRun(p, run.startRow, run.endRow, i, r);
    SwallowedLinesAreBlank(p, barriers, hardRanges, run, i, r);
  }

  lemma RawRowHoldsItself(rawLines: seq<Text>, placeholder: PlaceholderContext -> Text, p: Projection, k: nat, r: nat)
    requires IsProjection(rawLines, p.projectedBlocks, placeholder, p)
    requires k < |p.rows| && p.rows[k].kind.Raw? && Holds(p.rows[k].rawRange, r)
    ensures r < |rawLines| && p.rows[k] == RawRow(k, rawLines, r)
  {
  }

  lemma RowIndexInRun(p: Projection, first: nat, last: nat, i: nat, r: nat)
    requires CoversSource(p) && first <= last < |p.rows| && i < |p.rows|
    requires Holds(p.rows[i].rawRange, r)
    requires p.rows[first].rawRange.startLine <= r < p.rows[last].rawRange.endLine
    ensures first <= i <= last
  {
    if i < first {
      TileInOrder(p.rows, 0, |p.rawLines|, i, first);
    } else if last < i {
      TileInOrder(p.rows, 0, |p.rawLines|, last, i);
    }
  }
}
