/** Merging adjacent Claude Bash calls into groups (core/src/claude-bash.ts): which rows a group
    hides, and how its members share the bounded previews. */
module ClaudeGroups {
  import opened Wrappers
  import opened Text
  import opened Sequences
  import opened StableSort
  import opened ClaudeBash

  // ---- Previews -------------------------------------------------------------------------------

  /** What each of the remaining members may take at most. */
  function Share(left: nat, members: nat): (share: nat)
    requires members > 0
    ensures share <= left && members * share <= left < members * share + members
  {
    DivisionBounds(left, members);
    TimesGrows(members, left / members);
    left / members
  }

  lemma DivisionBounds(left: nat, members: nat)
    requires members > 0
    ensures members * (left / members) <= left < members * (left / members) + members
  {
  }

  lemma TimesGrows(m: nat, q: nat)
    requires m > 0
    ensures q <= m * q
  {
  }

  /** The first `n` members' shares: an equal part of what is left, member by member. */
  function SharedPieces(texts: seq<Text>, total: nat, n: nat): (pieces: seq<Text>)
    requires n <= |texts|
    ensures |pieces| == n && Units(pieces) <= total
  {
    if n == 0 then []
    else
      var before := SharedPieces(texts, total, n - 1);
      var piece := TruncateUtf16(texts[n - 1], Share(total - Units(before), |texts| - (n - 1))).0;
      UnitsMore(before, piece);
      before + [piece]
  }

  function Units(pieces: seq<Text>): nat {
    if pieces == [] then 0 else Units(pieces[..|pieces| - 1]) + |pieces[|pieces| - 1]|
  }

  lemma UnitsMore(pieces: seq<Text>, piece: Text)
    ensures Units(pieces + [piece]) == Units(pieces) + |piece|
  {
    assert (pieces + [piece])[..|pieces|] == pieces;
  }

  /** However long the others are, each member keeps its equal share of the whole, or all of its
      text; at most one unit is lost to a surrogate pair at the cut. */
  lemma {:induction false} EveryMemberKeepsItsShare(texts: seq<Text>, total: nat, n: nat, i: nat)
    requires i < n <= |texts|
    ensures SharedPieces(texts, total, n)[i] <= texts[i]
    ensures SharedPieces(texts, total, n)[i] == texts[i]
            || |SharedPieces(texts, total, n)[i]| + 1 >= Share(total, |texts|)
  {
    hide Units, TruncateUtf16, Share;
    if i < n - 1 {
      EveryMemberKeepsItsShare(texts, total, n - 1, i);
    } else {
      ShareNeverShrinks(texts, total, i);
      CutKeeps(texts[i], Share(total - Units(SharedPieces(texts, total, i)), |texts| - i));
    }
  }

  lemma CutKeeps(text: Text, maxChars: nat)
    ensures var cut := TruncateUtf16(text, maxChars).0; cut <= text && (cut == text || |cut| + 1 >= maxChars)
  {
  }

  lemma {:induction false} ShareNeverShrinks(texts: seq<Text>, total: nat, n: nat)
    requires n < |texts|
    ensures total - Units(SharedPieces(texts, total, n)) >= (|texts| - n) * Share(total, |texts|)
    ensures Share(total - Units(SharedPieces(texts, total, n)), |texts| - n) >= Share(total, |texts|)
  {
    hide Share, TruncateUtf16;
    var share := Share(total, |texts|);
    if n > 0 {
      ShareNeverShrinks(texts, total, n - 1);
      var before := SharedPieces(texts, total, n - 1);
      var left, members: nat := total - Units(before), |texts| - (n - 1);
      var piece := TruncateUtf16(texts[n - 1], Share(left, members)).0;
      UnitsMore(before, piece);
      TakingOneShare(left, members, share, |piece|);
      ShareBound(left - |piece|, members - 1, share);
    } else {
      assert Units([]) == 0;
      ShareBound(total, |texts|, share);
    }
  }

  lemma Monotone(m: nat, a: nat, b: nat)
    requires a <= b
    ensures m * a <= m * b
  {
  }

  lemma ShareBound(left: nat, members: nat, share: nat)
    requires members > 0 && left >= members * share
    ensures Share(left, members) >= share
  {
    var q := Share(left, members);
    hide Share;
    if q + 1 <= share {
      Monotone(members, q + 1, share);
    }
  }

  lemma TakingOneShare(left: nat, members: nat, share: nat, taken: nat)
    requires members > 1 && left >= members * share && taken <= Share(left, members)
    ensures left - taken >= (members - 1) * share
  {
    var q := Share(left, members);
    ShareBound(left, members, share);
    hide Share;
    assert members * q == (members - 1) * q + q;
    Monotone(members - 1, share, q);
  }

  /** `[Bash k/n]` in front of each member. */
  function MemberLabel(k: nat, n: nat): Text {
    Ascii("[Bash ") + Decimal(k) + Ascii("/") + Decimal(n) + Ascii("]")
  }

  const GAP: Text := [NEWLINE, NEWLINE]

  function JoinedBy(parts: seq<Text>, gap: Text): Text {
    if parts == [] then []
    else if |parts| == 1 then parts[0]
    else JoinedBy(parts[..|parts| - 1], gap) + gap + parts[|parts| - 1]
  }

  lemma {:induction false} JoinedLength(parts: seq<Text>, gap: Text)
    requires |parts| > 0
    ensures |JoinedBy(parts, gap)| == Units(parts) + (|parts| - 1) * |gap|
  {
    if |parts| > 1 {
      JoinedLength(parts[..|parts| - 1], gap);
      assert (|parts| - 1) * |gap| == (|parts| - 2) * |gap| + |gap|;
    } else {
      assert parts[..0] == [];
    }
  }

  function Labels(n: nat, count: nat): (labels: seq<Text>)
    ensures |labels| == count
  {
    seq(count, k requires 0 <= k => MemberLabel(k + 1, n))
  }

  function LabelUnits(n: nat, count: nat): nat {
    if count == 0 then 0 else LabelUnits(n, count - 1) + |MemberLabel(count, n)| + 1
  }

  /** Labels, line ends and gaps: what the members cannot have. */
  function FixedChars(n: nat): nat
    requires n > 0
  {
    LabelUnits(n, n) + (n - 1) * 2
  }

  function Labelled(pieces: seq<Text>, n: nat): (labelled: seq<Text>)
    ensures |labelled| == |pieces|
  {
    seq(|pieces|, k requires 0 <= k < |pieces| => MemberLabel(k + 1, n) + [NEWLINE] + pieces[k])
  }

  lemma {:induction false} LabelledUnits(pieces: seq<Text>, n: nat)
    ensures Units(Labelled(pieces, n)) == LabelUnits(n, |pieces|) + Units(pieces)
  {
    if pieces != [] {
      var front := pieces[..|pieces| - 1];
      LabelledUnits(front, n);
      assert Labelled(pieces, n)[..|pieces| - 1] == Labelled(front, n);
    }
  }

  /** The merged preview of members with the given texts. */
  function Preview(texts: seq<Text>, memberWasTruncated: bool, maxChars: nat): (preview: (Text, bool))
  {
    if |texts| <= 1 then
      var bounded := TruncateUtf16(if |texts| == 1 then texts[0] else [], maxChars);
      (bounded.0, bounded.1 || memberWasTruncated)
    else if FixedChars(|texts|) >= maxChars then
      (TruncateUtf16(JoinedBy(Labels(|texts|, |texts|), GAP), maxChars).0, true)
    else
      var pieces := SharedPieces(texts, maxChars - FixedChars(|texts|), |texts|);
      (JoinedBy(Labelled(pieces, |texts|), GAP), memberWasTruncated || pieces != texts)
  }

  /** The merged preview if nothing were cut. */
  function WholePreview(texts: seq<Text>): Text {
    if |texts| == 0 then [] else if |texts| == 1 then texts[0] else JoinedBy(Labelled(texts, |texts|), GAP)
  }

  /** A preview keeps its limit, and owns up exactly when a member was cut before or the texts
      are not all shown in full. */
  lemma PreviewKeepsLimit(texts: seq<Text>, memberWasTruncated: bool, maxChars: nat)
    ensures |Preview(texts, memberWasTruncated, maxChars).0| <= maxChars
    ensures Preview(texts, memberWasTruncated, maxChars).1 <==>
              memberWasTruncated || Preview(texts, memberWasTruncated, maxChars).0 != WholePreview(texts)
  {
    hide Units, TruncateUtf16, SharedPieces, JoinedBy;
    var n := |texts|;
    if n > 1 {
      MergedLength(texts, n);
      if FixedChars(n) >= maxChars {
        LabelsAreShort(n);
        CutShows(JoinedBy(Labels(n, n), GAP), maxChars);
      } else {
        var pieces := SharedPieces(texts, maxChars - FixedChars(n), n);
        MergedLength(pieces, n);
        CutPiecesAreShorter(texts, maxChars - FixedChars(n), n);
      }
    } else {
      CutShows(WholePreview(texts), maxChars);
    }
  }

  lemma MergedLength(pieces: seq<Text>, n: nat)
    requires |pieces| == n > 1
    ensures |JoinedBy(Labelled(pieces, n), GAP)| == FixedChars(n) + Units(pieces)
  {
    LabelledUnits(pieces, n);
    JoinedLength(Labelled(pieces, n), GAP);
  }

  /** Labels alone are shorter than labels with a line end behind each. */
  lemma LabelsAreShort(n: nat)
    requires n > 1
    ensures |JoinedBy(Labels(n, n), GAP)| < FixedChars(n)
  {
    LabelsLength(n, n);
    JoinedLength(Labels(n, n), GAP);
  }

  lemma {:induction false} LabelsLength(n: nat, count: nat)
    ensures Units(Labels(n, count)) + count == LabelUnits(n, count)
  {
    if count > 0 {
      LabelsLength(n, count - 1);
      assert Labels(n, count) == Labels(n, count - 1) + [MemberLabel(count, n)];
      UnitsMore(Labels(n, count - 1), MemberLabel(count, n));
    } else {
      assert Labels(n, 0) == [];
    }
  }

  /** Pieces that differ from their texts have fewer units. */
  lemma {:induction false} CutPiecesAreShorter(texts: seq<Text>, total: nat, n: nat)
    requires n <= |texts|
    ensures var pieces := SharedPieces(texts, total, n);
            Units(pieces) <= Units(texts[..n]) && (pieces != texts[..n] ==> Units(pieces) < Units(texts[..n]))
    ensures texts[..|texts|] == texts
  {
    hide TruncateUtf16, Share, Units;
    if n > 0 {
      CutPiecesAreShorter(texts, total, n - 1);
      var before := SharedPieces(texts, total, n - 1);
      var share := Share(total - Units(before), |texts| - (n - 1));
      var piece := TruncateUtf16(texts[n - 1], share).0;
      CutKeeps(texts[n - 1], share);
      UnitsMore(before, piece);
      assert texts[..n] == texts[..n - 1] + [texts[n - 1]];
      UnitsMore(texts[..n - 1], texts[n - 1]);
    }
  }

  method MergedGroupPreview(texts: seq<Text>, memberWasTruncated: bool, maxChars: nat)
    returns (text: Text, truncated: bool)
    ensures (text, truncated) == Preview(texts, memberWasTruncated, maxChars)
  {
    if |texts| <= 1 {
      var bounded := TruncateUtf16(if |texts| == 1 then texts[0] else [], maxChars);
      return bounded.0, bounded.1 || memberWasTruncated;
    }
    var n := |texts|;
    if FixedChars(n) >= maxChars {
      return TruncateUtf16(JoinedBy(Labels(n, n), GAP), maxChars).0, true;
    }
    var pieces, cut := SharePieces(texts, maxChars - FixedChars(n));
    text, truncated := JoinedBy(Labelled(pieces, n), GAP), memberWasTruncated || cut;
  }

  method SharePieces(texts: seq<Text>, total: nat) returns (pieces: seq<Text>, truncated: bool)
    ensures pieces == SharedPieces(texts, total, |texts|) && (truncated <==> pieces != texts)
  {
    hide TruncateUtf16, Share, Units;
    var n := |texts|;
    var remainingChars, remainingMembers: nat := total, n;
    truncated, pieces := false, [];
    NoUnits();
    for index := 0 to n
      invariant remainingMembers == n - index && pieces == SharedPieces(texts, total, index)
      invariant remainingChars == total - Units(pieces)
      invariant truncated <==> pieces != texts[..index]
    {
      var bounded := TruncateUtf16(texts[index], Share(remainingChars, remainingMembers));
      CutShows(texts[index], Share(remainingChars, remainingMembers));
      UnitsMore(pieces, bounded.0);
      PrefixWithOneMore(texts, pieces, index, bounded.0);
      pieces := pieces + [bounded.0];
      remainingChars, remainingMembers := remainingChars - |bounded.0|, remainingMembers - 1;
      truncated := truncated || bounded.1;
    }
    assert texts[..n] == texts;
  }

  lemma NoUnits()
    ensures Units([]) == 0
  {
  }

  lemma CutShows(text: Text, maxChars: nat)
    ensures TruncateUtf16(text, maxChars).1 <==> TruncateUtf16(text, maxChars).0 != text
    ensures |TruncateUtf16(text, maxChars).0| <= maxChars
  {
  }

  lemma PrefixWithOneMore(texts: seq<Text>, pieces: seq<Text>, index: nat, piece: Text)
    requires index < |texts| && |pieces| == index
    ensures pieces + [piece] == texts[..index + 1] <==> pieces == texts[..index] && piece == texts[index]
  {
    assert texts[..index + 1] == texts[..index] + [texts[index]];
    if pieces + [piece] == texts[..index + 1] {
      assert (pieces + [piece])[..index] == texts[..index + 1][..index];
      assert (pieces + [piece])[index] == texts[index];
    }
  }

  // ---- Groups ---------------------------------------------------------------------------------

  /** The rows, which of them are blank, and where the retained text is broken. */
  datatype Retained = Retained(count: nat, blank: nat -> bool, barriers: set<int>)

  predicate IsUsable(retained: Retained, block: Block) {
    block.rawStart < block.rawEndExclusive <= retained.count
  }

  function StartKeys(blocks: seq<Block>): (keys: seq<Key>)
    ensures |keys| == |blocks|
  {
    seq(|blocks|, i requires 0 <= i < |blocks| => Key(blocks[i].rawStart, 0))
  }

  function BlockIsUsable(retained: Retained): (wanted: Block -> bool)
    ensures forall block :: wanted(block) <==> IsUsable(retained, block)
  {
    block => IsUsable(retained, block)
  }

  /** The blocks whose range lies within the rows, in their order. */
  function Usable(retained: Retained, detected: seq<Block>): (usable: seq<Block>)
    ensures forall block :: block in usable <==> block in detected && IsUsable(retained, block)
  {
    KeepMembers(detected, BlockIsUsable(retained));
    Keep(detected, BlockIsUsable(retained))
  }

  ghost predicate InOrderByStart(blocks: seq<Block>) {
    forall a, b :: 0 <= a < b < |blocks| ==> blocks[a].rawStart <= blocks[b].rawStart
  }

  function SortedByStart(blocks: seq<Block>): (sorted: seq<Block>)
    ensures InOrderByStart(sorted) && forall block :: block in sorted <==> block in blocks
  {
    var order := StableOrder(StartKeys(blocks));
    var sorted := Arrange(blocks, order);
    assert InOrderByStart(sorted) by {
      forall a, b | 0 <= a < b < |sorted| ensures sorted[a].rawStart <= sorted[b].rawStart {
        assert Before(StartKeys(blocks), order[a], order[b]);
      }
    }
    assert forall block :: block in blocks ==> block in sorted by {
      forall block | block in blocks ensures block in sorted {
        var i: nat :| i < |blocks| && blocks[i] == block;
        assert i in order;
        var k :| 0 <= k < |order| && order[k] == i;
        assert sorted[k] == block;
      }
    }
    sorted
  }

  /** Sorting leaves blocks alone that stand in order. */
  lemma SortedStays(blocks: seq<Block>)
    requires InOrderByStart(blocks)
    ensures SortedByStart(blocks) == blocks
  {
    var keys := StartKeys(blocks);
    var places := seq(|blocks|, i requires 0 <= i < |blocks| => i as nat);
    assert forall i: nat :: i < |blocks| ==> places[i] == i;
    assert InOrder(keys, places);
    forall i: nat ensures i in places <==> i in StableOrder(keys) {
      if i < |places| {
        assert places[i] == i;
      }
    }
    StableOrderIsUnique(keys, StableOrder(keys), places);
  }

  /** Blocks one after the other. */
  ghost predicate Apart(retained: Retained, blocks: seq<Block>) {
    && (forall k :: 0 <= k < |blocks| ==> IsUsable(retained, blocks[k]))
    && (forall a, b :: 0 <= a < b < |blocks| ==> blocks[a].rawEndExclusive <= blocks[b].rawStart)
  }

  /** The block overlaps an accepted one that starts no later. */
  ghost predicate IsOverlapped(blocks: seq<Block>, block: Block) {
    exists k :: 0 <= k < |blocks| && blocks[k].rawStart <= block.rawStart < blocks[k].rawEndExclusive
  }

  predicate IsLate(sorted: seq<Block>, k: nat, i: nat)
    requires k < |sorted| && i < |sorted|
  {
    k < i && sorted[i].rawStart < sorted[k].rawEndExclusive
  }

  /** Of the first `n` blocks, sorted, exactly those are kept that overlap none kept before. */
  ghost predicate IsFirstOfEach(sorted: seq<Block>, kept: seq<nat>, n: nat)
    requires n <= |sorted|
  {
    && (forall k :: 0 <= k < |kept| ==> kept[k] < n)
    && (forall a, b :: 0 <= a < b < |kept| ==> kept[a] < kept[b])
    && forall i: nat :: i < n ==> (i in kept <==> forall k :: 0 <= k < |kept| ==> !IsLate(sorted, kept[k], i))
  }

  /** The usable blocks in order, and of what overlaps, the first. */
  ghost predicate AreAccepted(retained: Retained, detected: seq<Block>, blocks: seq<Block>) {
    var sorted := SortedByStart(Usable(retained, detected));
    exists kept: seq<nat> :: IsFirstOfEach(sorted, kept, |sorted|) && blocks == Arrange(sorted, kept)
  }

  /** Keep what is usable and, of what overlaps, the first. */
  method AcceptedBlocks(retained: Retained, detected: seq<Block>) returns (blocks: seq<Block>)
    ensures AreAccepted(retained, detected, blocks) && Apart(retained, blocks)
  {
    var usable := UsableBlocks(retained, detected);
    var sorted := SortedByStart(usable);
    hide SortedByStart, Usable, IsFirstOfEach;
    NoneYet(sorted);
    blocks := [];
    ghost var kept: seq<nat> := [];
    var acceptedEnd: nat := 0;
    for i := 0 to |sorted|
      invariant forall k :: 0 <= k < |kept| ==> kept[k] < i
      invariant IsFirstOfEach(sorted, kept, i) && blocks == Arrange(sorted, kept)
      invariant Apart(retained, blocks)
      invariant |blocks| > 0 ==> acceptedEnd == blocks[|blocks| - 1].rawEndExclusive
    {
      assert sorted[i] in sorted;
      EndsRise(retained, blocks);
      if |blocks| > 0 && sorted[i].rawStart < acceptedEnd {
        PassedBy(sorted, kept, i);
        continue;
      }
      forall k | 0 <= k < |kept| ensures !IsLate(sorted, kept[k], i) {
        assert blocks[k] == sorted[kept[k]];
      }
      KeptToo(sorted, kept, i);
      blocks := blocks + [sorted[i]];
      kept := kept + [i];
      acceptedEnd := sorted[i].rawEndExclusive;
    }
  }

  method UsableBlocks(retained: Retained, detected: seq<Block>) returns (usable: seq<Block>)
    ensures usable == Usable(retained, detected)
  {
    usable := [];
    for i := 0 to |detected|
      invariant usable == Keep(detected[..i], BlockIsUsable(retained))
    {
      KeepOneMore(detected, i, BlockIsUsable(retained));
      if IsUsable(retained, detected[i]) {
        usable := usable + [detected[i]];
      }
    }
    assert detected[..|detected|] == detected;
  }

  lemma NoneYet(sorted: seq<Block>)
    ensures IsFirstOfEach(sorted, [], 0)
  {
  }

  lemma PassedBy(sorted: seq<Block>, kept: seq<nat>, i: nat)
    requires i < |sorted| && IsFirstOfEach(sorted, kept, i) && |kept| > 0 && IsLate(sorted, kept[|kept| - 1], i)
    ensures IsFirstOfEach(sorted, kept, i + 1)
  {
  }

  lemma KeptToo(sorted: seq<Block>, kept: seq<nat>, i: nat)
    requires i < |sorted| && IsFirstOfEach(sorted, kept, i)
    requires forall k :: 0 <= k < |kept| ==> !IsLate(sorted, kept[k], i)
    ensures IsFirstOfEach(sorted, kept + [i], i + 1)
  {
    var more := kept + [i];
    assert forall k :: 0 <= k < |kept| ==> more[k] == kept[k];
    forall j: nat | j < i + 1
      ensures j in more <==> forall k :: 0 <= k < |more| ==> !IsLate(sorted, more[k], j)
    {
      assert j in more <==> j == i || j in kept;
      if forall k :: 0 <= k < |more| ==> !IsLate(sorted, more[k], j) {
        forall k | 0 <= k < |kept| ensures !IsLate(sorted, kept[k], j) {
          assert more[k] == kept[k];
        }
      }
    }
  }

  lemma KeptOrOverlapped(sorted: seq<Block>, kept: seq<nat>, blocks: seq<Block>, i: nat)
    requires InOrderByStart(sorted) && i < |sorted| && IsFirstOfEach(sorted, kept, |sorted|)
    requires blocks == Arrange(sorted, kept)
    ensures sorted[i] in blocks || IsOverlapped(blocks, sorted[i])
  {
    if i in kept {
      var k :| 0 <= k < |kept| && kept[k] == i;
      assert blocks[k] == sorted[i];
    } else {
      var k :| 0 <= k < |kept| && IsLate(sorted, kept[k], i);
      assert blocks[k] == sorted[kept[k]];
      assert blocks[k].rawStart <= sorted[i].rawStart < blocks[k].rawEndExclusive;
    }
  }

  lemma PickedAreSorted(sorted: seq<Block>, kept: seq<nat>, block: Block)
    requires (forall k :: 0 <= k < |kept| ==> kept[k] < |sorted|) && block in Arrange(sorted, kept)
    ensures block in sorted
  {
    var k :| 0 <= k < |kept| && Arrange(sorted, kept)[k] == block;
    assert sorted[kept[k]] == block;
  }

  /** Nothing usable is lost: each block is accepted, or overlaps an accepted one that sorts
      before it. */
  lemma UsableIsAcceptedOrOverlapped(retained: Retained, detected: seq<Block>, blocks: seq<Block>, block: Block)
    requires AreAccepted(retained, detected, blocks)
    ensures block in blocks ==> block in detected && block.rawStart < block.rawEndExclusive <= retained.count
    ensures block in detected && block.rawStart < block.rawEndExclusive <= retained.count ==>
              block in blocks || IsOverlapped(blocks, block)
  {
    var sorted := SortedByStart(Usable(retained, detected));
    var kept: seq<nat> :| IsFirstOfEach(sorted, kept, |sorted|) && blocks == Arrange(sorted, kept);
    assert block in sorted <==> block in detected && block.rawStart < block.rawEndExclusive <= retained.count;
    hide SortedByStart, Usable, IsUsable, IsOverlapped;
    if block in blocks {
      PickedAreSorted(sorted, kept, block);
    }
    if block in sorted {
      hide IsFirstOfEach, Arrange;
      var i: nat :| i < |sorted| && sorted[i] == block;
      KeptOrOverlapped(sorted, kept, blocks, i);
    }
  }

  /** Blocks that stand apart and in order, as a detection returns them, are all accepted. */
  lemma ApartAreAccepted(retained: Retained, detected: seq<Block>, blocks: seq<Block>)
    requires Apart(retained, detected) && AreAccepted(retained, detected, blocks)
    ensures blocks == detected
  {
    AllUsable(retained, detected);
    ApartIsInOrder(retained, detected);
    SortedStays(detected);
    var kept: seq<nat> :| IsFirstOfEach(detected, kept, |detected|) && blocks == Arrange(detected, kept);
    hide Apart, IsFirstOfEach, Arrange;
    AllAreKept(retained, detected, kept);
  }

  lemma AllAreKept(retained: Retained, blocks: seq<Block>, kept: seq<nat>)
    requires Apart(retained, blocks) && IsFirstOfEach(blocks, kept, |blocks|)
    ensures Arrange(blocks, kept) == blocks
  {
    forall i: nat | i < |blocks| ensures i in kept {
      NoneIsLate(retained, blocks, kept, i);
    }
    hide Apart;
    AllInOrder(kept, |blocks|);
  }

  lemma NoneIsLate(retained: Retained, blocks: seq<Block>, kept: seq<nat>, i: nat)
    requires Apart(retained, blocks) && i < |blocks| && IsFirstOfEach(blocks, kept, |blocks|)
    ensures i in kept
  {
    hide IsUsable;
    assert forall k :: 0 <= k < |kept| ==> !IsLate(blocks, kept[k], i);
  }

  lemma AllUsable(retained: Retained, detected: seq<Block>)
    requires forall k :: 0 <= k < |detected| ==> IsUsable(retained, detected[k])
    ensures Usable(retained, detected) == detected
  {
    KeepAll(detected, BlockIsUsable(retained));
  }

  lemma ApartIsInOrder(retained: Retained, blocks: seq<Block>)
    requires Apart(retained, blocks)
    ensures InOrderByStart(blocks)
  {
    forall a, b | 0 <= a < b < |blocks| ensures blocks[a].rawStart <= blocks[b].rawStart {
      assert IsUsable(retained, blocks[a]);
    }
  }

  lemma {:induction false} RisingIsAtLeast(kept: seq<nat>, k: nat)
    requires k < |kept| && (forall a, b :: 0 <= a < b < |kept| ==> kept[a] < kept[b])
    ensures kept[k] >= k
  {
    if k > 0 {
      RisingIsAtLeast(kept, k - 1);
    }
  }

  lemma {:induction false} NoneLeftOut(kept: seq<nat>, n: nat)
    requires (forall a, b :: 0 <= a < b < |kept| ==> kept[a] < kept[b]) && forall i: nat :: i < n ==> i in kept
    ensures |kept| >= n && forall k :: 0 <= k < n ==> kept[k] == k
  {
    if n > 0 {
      NoneLeftOut(kept, n - 1);
      assert n - 1 in kept;
      var p :| 0 <= p < |kept| && kept[p] == n - 1;
      RisingIsAtLeast(kept, p);
    }
  }

  /** Rising numbers below `n` that leave none out are all of them. */
  lemma AllInOrder(kept: seq<nat>, n: nat)
    requires (forall k :: 0 <= k < |kept| ==> kept[k] < n) && (forall a, b :: 0 <= a < b < |kept| ==> kept[a] < kept[b])
    requires forall i: nat :: i < n ==> i in kept
    ensures |kept| == n && forall k :: 0 <= k < n ==> kept[k] == k
  {
    NoneLeftOut(kept, n);
    if kept != [] {
      RisingIsAtLeast(kept, |kept| - 1);
    }
  }

  lemma EndsRise(retained: Retained, blocks: seq<Block>)
    requires Apart(retained, blocks)
    ensures forall k :: 0 <= k < |blocks| ==> blocks[k].rawEndExclusive <= blocks[|blocks| - 1].rawEndExclusive
  {
    forall k | 0 <= k < |blocks| - 1 ensures blocks[k].rawEndExclusive <= blocks[|blocks| - 1].rawEndExclusive {
      assert IsUsable(retained, blocks[|blocks| - 1]);
    }
  }

  predicate AllBlankBetween(retained: Retained, from: nat, to: nat) {
    forall k :: from <= k < to ==> retained.blank(k)
  }

  predicate CrossesBarrier(retained: Retained, start: nat, end: nat) {
    exists barrier :: barrier in retained.barriers && start <= barrier <= end
  }

  /** Nothing but blank rows and no break between the two. */
  predicate Joins(retained: Retained, previous: Block, next: Block) {
    AllBlankBetween(retained, previous.rawEndExclusive, next.rawStart)
        && !CrossesBarrier(retained, previous.rawEndExclusive, next.rawStart)
  }

  datatype Group = Group(rawStart: nat, rawEndExclusive: nat, status: Status, blocks: seq<Block>)

  /** Back over blank rows, up to a break or the first row that is not blank. */
  function LeadingStart(retained: Retained, start: nat): (leading: nat)
    ensures leading <= start && AllBlankBetween(retained, leading, start)
    ensures forall k :: leading < k <= start ==> k !in retained.barriers
    ensures leading == 0 || leading in retained.barriers || !retained.blank(leading - 1)
  {
    if start == 0 || start in retained.barriers || !retained.blank(start - 1) then start
        else LeadingStart(retained, start - 1)
  }

  function TrailingEnd(retained: Retained, end: nat): (trailing: nat)
    requires end <= retained.count
    ensures end <= trailing <= retained.count && AllBlankBetween(retained, end, trailing)
    ensures forall k :: end <= k < trailing ==> k !in retained.barriers
    ensures trailing == retained.count || trailing in retained.barriers || !retained.blank(trailing)
    decreases retained.count - end
  {
    if end == retained.count || end in retained.barriers || !retained.blank(end) then end
        else TrailingEnd(retained, end + 1)
  }

  /** The rows a run of blocks hides: its own, and the blanks around it where a row of the same
      stretch of text stands behind them. */
  function GroupStart(retained: Retained, first: Block): (start: nat)
    ensures start <= first.rawStart
  {
    var leading := LeadingStart(retained, first.rawStart);
    if leading > 0 && leading !in retained.barriers then leading else first.rawStart
  }

  function GroupEnd(retained: Retained, last: Block): (end: nat)
    requires last.rawEndExclusive <= retained.count
    ensures last.rawEndExclusive <= end <= retained.count
  {
    var trailing := TrailingEnd(retained, last.rawEndExclusive);
    if trailing < retained.count && trailing !in retained.barriers then trailing else last.rawEndExclusive
  }

  predicate SomeActive(blocks: seq<Block>) {
    exists k :: 0 <= k < |blocks| && blocks[k].status == Active
  }

  function GroupOf(retained: Retained, run: seq<Block>): Group
    requires |run| > 0 && run[|run| - 1].rawEndExclusive <= retained.count
  {
    Group(GroupStart(retained, run[0]), GroupEnd(retained, run[|run| - 1]), if SomeActive(run) then Active
        else Completed, run)
  }

  /** The blocks below `n`, cut into runs wherever two neighbours do not join. */
  ghost predicate AreRuns(retained: Retained, blocks: seq<Block>, runs: seq<seq<Block>>, n: nat)
    requires n <= |blocks|
  {
    && Flat(runs) == blocks[..n]
    && (forall r :: 0 <= r < |runs| ==> |runs[r]| > 0)
    && (forall r :: 0 <= r < |runs| ==> Joined(retained, runs[r]))
    && (forall r :: 0 < r < |runs| ==> !Joins(retained, runs[r - 1][|runs[r - 1]| - 1], runs[r][0]))
  }

  ghost predicate Joined(retained: Retained, run: seq<Block>) {
    forall k :: 0 < k < |run| ==> Joins(retained, run[k - 1], run[k])
  }

  function Flat(runs: seq<seq<Block>>): seq<Block> {
    if runs == [] then [] else Flat(runs[..|runs| - 1]) + runs[|runs| - 1]
  }

  method CollectRuns(retained: Retained, blocks: seq<Block>) returns (runs: seq<seq<Block>>)
    ensures AreRuns(retained, blocks, runs, |blocks|)
  {
    runs := [];
    for i := 0 to |blocks|
      invariant AreRuns(retained, blocks, runs, i)
      invariant i > 0 ==> |runs| > 0 && runs[|runs| - 1][|runs[|runs| - 1]| - 1] == blocks[i - 1]
    {
      hide Joins;
      ghost var before := runs;
      if |runs| > 0 && i > 0 && Joins(retained, blocks[i - 1], blocks[i]) {
        var current := runs[|runs| - 1];
        RunGrows(retained, blocks, runs, i);
        runs := runs[..|runs| - 1] + [current + [blocks[i]]];
      } else {
        RunStarts(retained, blocks, runs, i);
        runs := runs + [[blocks[i]]];
      }
    }
  }

  lemma RunGrows(retained: Retained, blocks: seq<Block>, runs: seq<seq<Block>>, i: nat)
    requires 0 < i < |blocks| && AreRuns(retained, blocks, runs, i) && |runs| > 0
    requires runs[|runs| - 1][|runs[|runs| - 1]| - 1] == blocks[i - 1] && Joins(retained, blocks[i - 1], blocks[i])
    ensures AreRuns(retained, blocks, runs[..|runs| - 1] + [runs[|runs| - 1] + [blocks[i]]], i + 1)
  {
    hide Joins;
    var front, current := runs[..|runs| - 1], runs[|runs| - 1];
    var more := front + [current + [blocks[i]]];
    assert more[..|more| - 1] == front;
    ConcatAssociates(Flat(front), current, [blocks[i]]);
    assert blocks[..i + 1] == blocks[..i] + [blocks[i]];
  }

  lemma RunStarts(retained: Retained, blocks: seq<Block>, runs: seq<seq<Block>>, i: nat)
    requires i < |blocks| && AreRuns(retained, blocks, runs, i)
    requires i > 0 ==>
               |runs| > 0 && runs[|runs| - 1][|runs[|runs| - 1]| - 1] == blocks[i - 1]
               && !Joins(retained, blocks[i - 1], blocks[i])
    ensures AreRuns(retained, blocks, runs + [[blocks[i]]], i + 1)
  {
    hide Joins;
    var more := runs + [[blocks[i]]];
    assert more[..|more| - 1] == runs;
    assert blocks[..i + 1] == blocks[..i] + [blocks[i]];
    if i == 0 && |runs| > 0 {
      FlatHasAll(runs);
    }
  }

  lemma FlatHasAll(runs: seq<seq<Block>>)
    requires |runs| > 0 && |runs[|runs| - 1]| > 0
    ensures |Flat(runs)| > 0
  {
  }

  /** Groups one after the other, whose extra rows are blank and unbroken. */
  ghost predicate AreGroups(retained: Retained, blocks: seq<Block>, groups: seq<Group>) {
    && AreRuns(retained, blocks, RunsOf(groups), |blocks|)
    && (forall g :: 0 <= g < |groups| ==> IsGroupOf(retained, groups[g].blocks, groups[g]))
  }

  ghost predicate IsGroupOf(retained: Retained, run: seq<Block>, group: Group) {
    |run| > 0 && run[|run| - 1].rawEndExclusive <= retained.count && group == GroupOf(retained, run)
  }

  function RunsOf(groups: seq<Group>): (runs: seq<seq<Block>>)
    ensures |runs| == |groups|
  {
    seq(|groups|, g requires 0 <= g < |groups| => groups[g].blocks)
  }

  method GroupClaudeBashBlocks(retained: Retained, detected: seq<Block>)
    returns (groups: seq<Group>, blocks: seq<Block>)
    ensures AreAccepted(retained, detected, blocks) && Apart(retained, blocks)
    ensures AreGroups(retained, blocks, groups)
  {
    blocks := AcceptedBlocks(retained, detected);
    var runs := CollectRuns(retained, blocks);
    hide Joins, GroupStart, GroupEnd, IsUsable, AreAccepted;
    groups := [];
    for r := 0 to |runs|
      invariant |groups| == r && forall g: nat :: g < r ==> IsGroupOf(retained, runs[g], groups[g])
    {
      RunIsUsable(retained, blocks, runs, r);
      groups := groups + [GroupOf(retained, runs[r])];
    }
    assert RunsOf(groups) == runs;
  }

  lemma {:induction false} InFlat(runs: seq<seq<Block>>, r: nat, k: nat)
    requires r < |runs| && k < |runs[r]|
    ensures runs[r][k] in Flat(runs)
    decreases |runs|
  {
    var front := runs[..|runs| - 1];
    if r < |front| {
      InFlat(front, r, k);
    }
  }

  lemma RunIsUsable(retained: Retained, blocks: seq<Block>, runs: seq<seq<Block>>, r: nat)
    requires Apart(retained, blocks) && AreRuns(retained, blocks, runs, |blocks|) && r < |runs|
    ensures |runs[r]| > 0 && runs[r][|runs[r]| - 1].rawEndExclusive <= retained.count
  {
    InFlat(runs, r, |runs[r]| - 1);
    assert blocks[..|blocks|] == blocks;
    var k :| 0 <= k < |blocks| && blocks[k] == runs[r][|runs[r]| - 1];
    assert IsUsable(retained, blocks[k]);
  }

  // ---- What groups hide -------------------------------------------------------------------------

  function Offset(runs: seq<seq<Block>>, r: nat): nat
    requires r <= |runs|
  {
    |Flat(runs[..r])|
  }

  /** A run stands in the whole list where the runs before it end. */
  lemma {:induction false} RunInPlace(runs: seq<seq<Block>>, r: nat, k: nat)
    requires r < |runs| && k < |runs[r]|
    ensures Offset(runs, r) + k < |Flat(runs)| && Flat(runs)[Offset(runs, r) + k] == runs[r][k]
    ensures Offset(runs, r + 1) == Offset(runs, r) + |runs[r]|
    decreases |runs|
  {
    var front := runs[..|runs| - 1];
    assert runs[..r + 1][..r] == runs[..r];
    if r < |front| {
      RunInPlace(front, r, k);
      assert front[..r] == runs[..r] && front[..r + 1] == runs[..r + 1];
    } else {
      assert runs[..r] == front && runs[..r + 1] == runs;
    }
  }

  /** Neighbouring groups stay apart: what the one takes behind and the other in front ends at
      the row or the break that keeps them apart. */
  lemma NeighboursStayApart(retained: Retained, last: Block, first: Block)
    requires last.rawEndExclusive <= first.rawStart <= retained.count && !Joins(retained, last, first)
    ensures GroupEnd(retained, last) <= GroupStart(retained, first)
  {
    var trailing, leading := TrailingEnd(retained, last.rawEndExclusive), LeadingStart(retained, first.rawStart);
    if CrossesBarrier(retained, last.rawEndExclusive, first.rawStart) {
      var barrier :| barrier in retained.barriers && last.rawEndExclusive <= barrier <= first.rawStart;
      assert trailing <= barrier <= leading;
    } else {
      var row: nat :| last.rawEndExclusive <= row < first.rawStart && !retained.blank(row);
      assert trailing <= row < leading;
    }
  }

  lemma {:induction false} GroupsAreApart(retained: Retained, blocks: seq<Block>, groups: seq<Group>, g: nat, h: nat)
    requires Apart(retained, blocks) && AreGroups(retained, blocks, groups) && g < h < |groups|
    ensures groups[g].rawStart < groups[g].rawEndExclusive <= groups[h].rawStart
    decreases h
  {
    hide IsUsable, Joins, GroupStart, GroupEnd;
    var runs := RunsOf(groups);
    var last, first := runs[h - 1][|runs[h - 1]| - 1], runs[h][0];
    assert blocks[..|blocks|] == blocks;
    RunInPlace(runs, h - 1, |runs[h - 1]| - 1);
    RunInPlace(runs, h, 0);
    assert IsGroupOf(retained, runs[h - 1], groups[h - 1]) && IsGroupOf(retained, runs[h], groups[h]);
    RunIsUsable(retained, blocks, runs, h);
    GroupIsNotEmpty(retained, blocks, groups, g);
    FirstIsInside(retained, blocks, runs, h);
    NeighboursStayApart(retained, last, first);
    if g < h - 1 {
      GroupsAreApart(retained, blocks, groups, g, h - 1);
      GroupIsNotEmpty(retained, blocks, groups, h - 1);
    }
  }

  lemma FirstIsInside(retained: Retained, blocks: seq<Block>, runs: seq<seq<Block>>, r: nat)
    requires Apart(retained, blocks) && AreRuns(retained, blocks, runs, |blocks|) && r < |runs|
    ensures |runs[r]| > 0 && runs[r][0].rawStart <= retained.count
  {
    assert blocks[..|blocks|] == blocks;
    RunInPlace(runs, r, 0);
    assert IsUsable(retained, blocks[Offset(runs, r)]);
  }

  lemma GroupIsNotEmpty(retained: Retained, blocks: seq<Block>, groups: seq<Group>, g: nat)
    requires Apart(retained, blocks) && AreGroups(retained, blocks, groups) && g < |groups|
    ensures groups[g].rawStart < groups[g].rawEndExclusive
  {
    var runs := RunsOf(groups);
    var run := runs[g];
    assert IsGroupOf(retained, run, groups[g]);
    assert blocks[..|blocks|] == blocks;
    RunInPlace(runs, g, 0);
    RunInPlace(runs, g, |run| - 1);
    var i, j := Offset(runs, g), Offset(runs, g) + |run| - 1;
    assert IsUsable(retained, blocks[i]) && IsUsable(retained, blocks[j]);
  }

  predicate HoldsRow(block: Block, row: nat) {
    block.rawStart <= row < block.rawEndExclusive
  }

  lemma {:induction false} JoinedRunHoldsOrIsBlank(retained: Retained, run: seq<Block>, row: nat)
    requires |run| > 0 && Joined(retained, run) && run[0].rawStart <= row < run[|run| - 1].rawEndExclusive
    ensures retained.blank(row) || exists k :: 0 <= k < |run| && HoldsRow(run[k], row)
    decreases |run|
  {
    var last := |run| - 1;
    if row >= run[last].rawStart {
      assert HoldsRow(run[last], row);
    } else {
      assert Joins(retained, run[last - 1], run[last]);
      if row < run[last - 1].rawEndExclusive {
        JoinedRunHoldsOrIsBlank(retained, run[..last], row);
        if !retained.blank(row) {
          var k :| 0 <= k < last && HoldsRow(run[..last][k], row);
          assert HoldsRow(run[k], row);
        }
      }
    }
  }

  /** A group hides nothing but rows of its members and blank rows. */
  lemma GroupHidesMembersAndBlanks(retained: Retained, blocks: seq<Block>, groups: seq<Group>, g: nat, row: nat)
    requires AreGroups(retained, blocks, groups) && g < |groups|
             && groups[g].rawStart <= row < groups[g].rawEndExclusive
    ensures || retained.blank(row)
            || exists k :: 0 <= k < |groups[g].blocks|
                 && groups[g].blocks[k].rawStart <= row < groups[g].blocks[k].rawEndExclusive
  {
    var run := RunsOf(groups)[g];
    assert IsGroupOf(retained, run, groups[g]) && Joined(retained, run);
    if run[0].rawStart <= row < run[|run| - 1].rawEndExclusive {
      JoinedRunHoldsOrIsBlank(retained, run, row);
    }
  }

  /** Blanks of one stretch of text between row `stop - 1`, which is not blank, and a first block. */
  ghost predicate IsGapInFront(retained: Retained, stop: nat, start: nat) {
    && 0 < stop < start && !retained.blank(stop - 1)
    && (forall row :: stop <= row < start ==> retained.blank(row))
    && (forall barrier :: barrier in retained.barriers ==> barrier < stop || start < barrier)
  }

  /** Blanks of one stretch of text between a last block and row `stop`, which is not blank. */
  ghost predicate IsGapBehind(retained: Retained, end: nat, stop: nat) {
    && end < stop < retained.count && !retained.blank(stop)
    && (forall row :: end <= row < stop ==> retained.blank(row))
    && (forall barrier :: barrier in retained.barriers ==> barrier < end || stop < barrier)
  }

  /** A group takes in the blanks on either side exactly when they are a gap to other rows of the
      same stretch, and it is active exactly when one of its members is. */
  lemma GroupMeaning(retained: Retained, blocks: seq<Block>, groups: seq<Group>, g: nat)
    requires AreGroups(retained, blocks, groups) && g < |groups|
    ensures var group := groups[g];
            && |group.blocks| > 0
            && (group.status == Active <==> exists k :: 0 <= k < |group.blocks| && group.blocks[k].status == Active)
    ensures var start, first := groups[g].rawStart, groups[g].blocks[0].rawStart;
            && (start == first || IsGapInFront(retained, start, first))
            && (forall stop: nat :: IsGapInFront(retained, stop, first) ==> start == stop)
    ensures var end, last := groups[g].rawEndExclusive, groups[g].blocks[|groups[g].blocks| - 1].rawEndExclusive;
            && (end == last || IsGapBehind(retained, last, end))
            && (forall stop: nat :: IsGapBehind(retained, last, stop) ==> end == stop)
  {
    var run := RunsOf(groups)[g];
    assert IsGroupOf(retained, run, groups[g]);
    StartMeaning(retained, run[0]);
    EndMeaning(retained, run[|run| - 1]);
    hide GroupStart, GroupEnd;
  }

  lemma StartMeaning(retained: Retained, first: Block)
    ensures var start := GroupStart(retained, first);
            && (start == first.rawStart || IsGapInFront(retained, start, first.rawStart))
            && (forall stop: nat :: IsGapInFront(retained, stop, first.rawStart) ==> start == stop)
  {
    var leading := LeadingStart(retained, first.rawStart);
    forall stop: nat | IsGapInFront(retained, stop, first.rawStart) ensures leading == stop {
      var before: nat := stop - 1;
      assert leading <= before ==> retained.blank(before);
    }
    if leading > 0 && leading !in retained.barriers && leading < first.rawStart {
      assert IsGapInFront(retained, leading, first.rawStart);
    }
  }

  lemma EndMeaning(retained: Retained, last: Block)
    requires last.rawEndExclusive <= retained.count
    ensures var end := GroupEnd(retained, last);
            && (end == last.rawEndExclusive || IsGapBehind(retained, last.rawEndExclusive, end))
            && (forall stop: nat :: IsGapBehind(retained, last.rawEndExclusive, stop) ==> end == stop)
  {
    var trailing := TrailingEnd(retained, last.rawEndExclusive);
    forall stop: nat | IsGapBehind(retained, last.rawEndExclusive, stop) ensures trailing == stop {
      assert stop < trailing ==> retained.blank(stop);
    }
  }

  /** Two neighbouring blocks are in one group exactly when only blanks lie between them, and no
      break does. */
  lemma NeighboursAreGrouped(retained: Retained, blocks: seq<Block>, groups: seq<Group>, i: nat)
    requires AreGroups(retained, blocks, groups) && 0 < i < |blocks|
    ensures InOneGroup(groups, i) <==>
              && (forall row :: blocks[i - 1].rawEndExclusive <= row < blocks[i].rawStart ==> retained.blank(row))
              && (forall barrier :: barrier in retained.barriers ==>
                    barrier < blocks[i - 1].rawEndExclusive || blocks[i].rawStart < barrier)
  {
    var runs := RunsOf(groups);
    assert blocks[..|blocks|] == blocks;
    JoinsMeaning(retained, blocks[i - 1], blocks[i]);
    var r, k := Numbered(runs, i);
    hide Joins, IsGroupOf;
    if k > 0 {
      LaterOfRun(retained, blocks, runs, r, k, i);
      assert IsNumbered(groups, r, k, i);
    } else {
      FirstOfRun(retained, blocks, runs, r, i);
      FirstIsAlone(groups, r, i);
    }
  }

  /** Block `i` is in a group, and not its first. */
  ghost predicate InOneGroup(groups: seq<Group>, i: nat) {
    exists g: nat, k: nat :: k > 0 && IsNumbered(groups, g, k, i)
  }

  lemma FirstIsAlone(groups: seq<Group>, r: nat, i: nat)
    requires IsNumbered(groups, r, 0, i)
    ensures !InOneGroup(groups, i)
  {
    hide Offset;
    forall g: nat, m: nat | IsNumbered(groups, g, m, i) ensures m == 0 {
      OneNumber(RunsOf(groups), r, 0, g, m);
    }
  }

  lemma LaterOfRun(retained: Retained, blocks: seq<Block>, runs: seq<seq<Block>>, r: nat, k: nat, i: nat)
    requires AreRuns(retained, blocks, runs, |blocks|) && r < |runs| && 0 < k < |runs[r]| && Offset(runs, r) + k == i
    ensures i < |blocks| && Joins(retained, blocks[i - 1], blocks[i])
  {
    hide Joins;
    assert blocks[..|blocks|] == blocks;
    assert Joined(retained, runs[r]);
    RunInPlace(runs, r, k - 1);
    RunInPlace(runs, r, k);
  }

  lemma JoinsMeaning(retained: Retained, previous: Block, next: Block)
    ensures Joins(retained, previous, next) <==>
              && (forall row :: previous.rawEndExclusive <= row < next.rawStart ==> retained.blank(row))
              && (forall barrier :: barrier in retained.barriers ==>
                    barrier < previous.rawEndExclusive || next.rawStart < barrier)
  {
  }

  lemma FirstOfRun(retained: Retained, blocks: seq<Block>, runs: seq<seq<Block>>, r: nat, i: nat)
    requires AreRuns(retained, blocks, runs, |blocks|) && r < |runs| && 0 < i < |blocks| && Offset(runs, r) == i
    ensures !Joins(retained, blocks[i - 1], blocks[i])
  {
    hide Joins;
    assert blocks[..|blocks|] == blocks;
    assert r > 0 by {
      assert runs[..0] == [];
    }
    RunInPlace(runs, r, 0);
    RunInPlace(runs, r - 1, |runs[r - 1]| - 1);
  }

  /** Member `k` of group `g` is block `i` of all. */
  ghost predicate IsNumbered(groups: seq<Group>, g: int, k: int, i: nat) {
    0 <= g < |groups| && 0 <= k < |groups[g].blocks| && Offset(RunsOf(groups), g) + k == i
  }

  lemma {:induction false} Numbered(runs: seq<seq<Block>>, i: nat) returns (r: nat, k: nat)
    requires i < |Flat(runs)|
    ensures r < |runs| && k < |runs[r]| && Offset(runs, r) + k == i
    decreases |runs|
  {
    var front := runs[..|runs| - 1];
    if i < |Flat(front)| {
      r, k := Numbered(front, i);
      assert front[..r] == runs[..r];
    } else {
      r, k := |front|, i - |Flat(front)|;
    }
  }

  lemma {:induction false} OffsetsRise(runs: seq<seq<Block>>, r: nat, g: nat)
    requires r < g <= |runs|
    ensures Offset(runs, r) + |runs[r]| <= Offset(runs, g)
    decreases g
  {
    assert runs[..g][..g - 1] == runs[..g - 1];
    if r < g - 1 {
      OffsetsRise(runs, r, g - 1);
    }
  }

  lemma OneNumber(runs: seq<seq<Block>>, r: nat, k: nat, g: nat, m: nat)
    requires r < |runs| && k < |runs[r]| && g < |runs| && m < |runs[g]|
    requires Offset(runs, r) + k == Offset(runs, g) + m
    ensures r == g && k == m
  {
    if r < g {
      OffsetsRise(runs, r, g);
    } else if g < r {
      OffsetsRise(runs, g, r);
    }
  }

  /** The form of a preview: numbered members, one below the other. */
  lemma TwoMembersPreview(a: Text, b: Text)
    ensures WholePreview([a, b]) ==
              Ascii("[Bash 1/2]") + [NEWLINE] + a + [NEWLINE, NEWLINE] + Ascii("[Bash 2/2]") + [NEWLINE] + b
    ensures WholePreview([a]) == a
  {
    var parts := Labelled([a, b], 2);
    var first, second := Ascii("[Bash 1/2]"), Ascii("[Bash 2/2]");
    assert Decimal(1) == [0x31] && Decimal(2) == [0x32];
    assert MemberLabel(1, 2) == first && MemberLabel(2, 2) == second;
    assert parts == [first + [NEWLINE] + a, second + [NEWLINE] + b];
    assert parts[..1] == [parts[0]];
    assert JoinedBy(parts, GAP) == parts[0] + GAP + parts[1];
    ConcatAssociates(parts[0] + GAP, second + [NEWLINE], b);
    ConcatAssociates(parts[0] + GAP, second, [NEWLINE]);
  }
}
