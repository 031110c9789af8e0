/** Identity across frames (`reconcileToolBlockIds` of core/src/tool-projection.ts): blocks of
    the next frame take over the ids of earlier blocks with the same fingerprint, along a
    pairing that never crosses, and every block ends with an id of its own. */
module ToolReconcile {
  import opened Wrappers
  import opened Text
  import opened StableSort
  import opened MonotonicSelection
  import opened ToolBlocks
  import opened FreshKeys

  /** What the detector tells of one block beside the block itself: the id it is looked up by,
      its physical origin, and the physical row in its id. All three are taken as given. */
  datatype Evidence = Evidence(lookupId: Text, origin: Option<int>, physicalRow: Option<int>)

  // ---- Occurrences of one fingerprint -------------------------------------------------------

  /** The blocks below `n` with the fingerprint and a usable start, in their own order. */
  function Occurrences(blocks: seq<Block>, fingerprint: Text, n: nat): (indices: seq<nat>)
    requires n <= |blocks|
    ensures forall k :: 0 <= k < |indices| ==> indices[k] < n
    ensures forall a, b :: 0 <= a < b < |indices| ==> indices[a] < indices[b]
    ensures forall i: nat :: i in indices <==>
              i < n && blocks[i].fingerprint == fingerprint && IsSafeInteger(blocks[i].sourceRange.startLine)
  {
    if n == 0 then []
    else
      var before := Occurrences(blocks, fingerprint, n - 1);
      if blocks[n - 1].fingerprint == fingerprint && IsSafeInteger(blocks[n - 1].sourceRange.startLine)
      then before + [n - 1] else before
  }

  function StartKeys(blocks: seq<Block>, indices: seq<nat>): (keys: seq<Key>)
    requires forall k :: 0 <= k < |indices| ==> indices[k] < |blocks|
    ensures |keys| == |indices|
  {
    seq(|indices|, k requires 0 <= k < |indices| => Key(blocks[indices[k]].sourceRange.startLine, 0))
  }

  /** Block `a` starts before block `b`, or with it and comes first in the list. */
  predicate Precedes(blocks: seq<Block>, a: nat, b: nat)
    requires a < |blocks| && b < |blocks|
  {
    var x, y := blocks[a].sourceRange.startLine, blocks[b].sourceRange.startLine;
    x < y || (x == y && a < b)
  }

  /** The occurrences of a fingerprint in source order. */
  ghost predicate InSourceOrder(blocks: seq<Block>, fingerprint: Text, sorted: seq<nat>) {
    && (forall k :: 0 <= k < |sorted| ==> sorted[k] < |blocks| && blocks[sorted[k]].fingerprint == fingerprint)
    && (forall a, b :: 0 <= a < b < |sorted| ==> Precedes(blocks, sorted[a], sorted[b]))
  }

  /** A block of the fingerprint with a usable start. */
  predicate IsOccurrence(blocks: seq<Block>, fingerprint: Text, i: nat) {
    i < |blocks| && blocks[i].fingerprint == fingerprint && IsSafeInteger(blocks[i].sourceRange.startLine)
  }

  lemma ArrangedHasAll(keys: seq<Key>, items: seq<nat>, order: seq<nat>)
    requires |keys| == |items| && IsStableOrder(keys, order)
    ensures forall i: nat :: i in Arrange(items, order) <==> i in items
  {
    forall i: nat | i in items ensures i in Arrange(items, order) {
      var j: nat :| j < |items| && items[j] == i;
      assert j in order;
      var k :| 0 <= k < |order| && order[k] == j;
      assert Arrange(items, order)[k] == i;
    }
  }

  function SortedOccurrences(blocks: seq<Block>, fingerprint: Text): (sorted: seq<nat>)
    ensures InSourceOrder(blocks, fingerprint, sorted)
    ensures forall i: nat :: i in sorted <==> IsOccurrence(blocks, fingerprint, i)
  {
    var indices := Occurrences(blocks, fingerprint, |blocks|);
    var order := StableOrder(StartKeys(blocks, indices));
    var sorted: seq<nat> := Arrange(indices, order);
    assert InSourceOrder(blocks, fingerprint, sorted) by {
      forall k | 0 <= k < |sorted| ensures sorted[k] < |blocks| && blocks[sorted[k]].fingerprint == fingerprint {
        assert sorted[k] in indices;
      }
      forall a, b | 0 <= a < b < |sorted| ensures Precedes(blocks, sorted[a], sorted[b]) {
        assert Before(StartKeys(blocks, indices), order[a], order[b]);
      }
    }
    ArrangedHasAll(StartKeys(blocks, indices), indices, order);
    sorted
  }

  function StartLines(blocks: seq<Block>, sorted: seq<nat>): (starts: seq<int>)
    requires forall k :: 0 <= k < |sorted| ==> sorted[k] < |blocks|
    ensures |starts| == |sorted|
  {
    seq(|sorted|, k requires 0 <= k < |sorted| => blocks[sorted[k]].sourceRange.startLine)
  }

  // ---- Pairing positions --------------------------------------------------------------------------

  /** A previous position for some of the next positions. */
  type Pairing = seq<Option<nat>>

  /** Paired positions lie below `limit` and rise together: nothing crosses, nothing repeats. */
  ghost predicate Uncrossed(pairing: Pairing, limit: nat) {
    && (forall n :: 0 <= n < |pairing| && pairing[n].Some? ==> pairing[n].value < limit)
    && (forall a, b :: 0 <= a < b < |pairing| && pairing[a].Some? && pairing[b].Some? ==>
          pairing[a].value < pairing[b].value)
  }

  ghost predicate Used(pairing: Pairing, p: nat) {
    exists n :: 0 <= n < |pairing| && pairing[n] == Some(p)
  }

  /** Adding the pair (p, n) would neither cross nor share an end with one already made. */
  ghost predicate Fits(pairing: Pairing, p: nat, n: nat)
    requires n < |pairing|
  {
    && pairing[n].None? && !Used(pairing, p)
    && forall k :: 0 <= k < |pairing| && pairing[k].Some? ==>
          (k < n ==> pairing[k].value < p) && (n < k ==> p < pairing[k].value)
  }

  /** No further pair fits. */
  ghost predicate Maximal(pairing: Pairing, previousCount: nat) {
    forall p: nat, n: nat :: p < previousCount && n < |pairing| ==> !Fits(pairing, p, n)
  }

  /** How a selection pairs: into the previous side when that is the longer, else into the next. */
  ghost predicate PairsBy(pairing: Pairing, previous: seq<int>, next: seq<int>, selected: seq<nat>) {
    if |previous| >= |next| then
      && IsSelection(selected, |previous|, |next|)
      && |pairing| == |next|
      && (forall n :: 0 <= n < |next| ==> pairing[n] == Some(selected[n]))
      && (|previous| * |next| <= MAX_RECONCILE_DP_CELLS ==> IsCheapestEarliest(previous, next, selected))
    else
      && IsSelection(selected, |next|, |previous|)
      && |pairing| == |next|
      && (forall p :: 0 <= p < |previous| ==> pairing[selected[p]] == Some(p))
      && (forall n :: 0 <= n < |next| && pairing[n].Some? ==>
            pairing[n].value < |previous| && selected[pairing[n].value] == n)
      && (|next| * |previous| <= MAX_RECONCILE_DP_CELLS ==> IsCheapestEarliest(next, previous, selected))
  }

  /** Such a pairing crosses nothing, and leaves over only items of the longer side. */
  lemma SelectionsPairUncrossed(pairing: Pairing, previous: seq<int>, next: seq<int>, selected: seq<nat>)
    requires PairsBy(pairing, previous, next, selected)
    ensures Uncrossed(pairing, |previous|)
    ensures |next| <= |previous| ==> forall n :: 0 <= n < |next| ==> pairing[n].Some?
    ensures |previous| <= |next| ==> forall p: nat :: p < |previous| ==> Used(pairing, p)
  {
    if |previous| >= |next| {
      if |previous| == |next| {
        FullSelectionIsIdentity(selected, |previous|);
        forall p: nat | p < |previous| ensures Used(pairing, p) {
          assert pairing[p] == Some(p);
        }
      }
    } else {
      forall p: nat | p < |previous| ensures Used(pairing, p) {
        assert pairing[selected[p]] == Some(p);
      }
      forall a, b | 0 <= a < b < |pairing| && pairing[a].Some? && pairing[b].Some?
        ensures pairing[a].value < pairing[b].value
      {
        assert selected[pairing[a].value] == a && selected[pairing[b].value] == b;
      }
    }
  }

  /** Pair one corridor: every item of the shorter side, at the least total distance while the
      table fits. */
  method MonotonicSourcePairs(previous: seq<int>, next: seq<int>) returns (pairing: Pairing, ghost selected: seq<nat>)
    ensures |pairing| == |next| && PairsBy(pairing, previous, next, selected)
  {
    if |previous| >= |next| {
      var chosen := SelectMonotonicIndices(previous, next);
      pairing, selected := seq(|next|, n requires 0 <= n < |next| => Some(chosen[n])), chosen;
      return;
    }
    var chosen := SelectMonotonicIndices(next, previous);
    selected := chosen;
    pairing := seq(|next|, _ => None);
    for p := 0 to |previous|
      invariant |pairing| == |next|
      invariant forall q :: 0 <= q < p ==> pairing[chosen[q]] == Some(q)
      invariant forall n :: 0 <= n < |next| && pairing[n].Some? ==>
                  pairing[n].value < p && chosen[pairing[n].value] == n
    {
      pairing := pairing[chosen[p] := Some(p)];
    }
  }

  // ---- Corridors between anchors --------------------------------------------------------------------

  /** A pair of positions that is known for certain. */
  datatype Anchor = Anchor(previousIndex: nat, nextIndex: nat)

  ghost predicate AnchorsWithin(anchors: seq<Anchor>, previousCount: nat, nextCount: nat) {
    forall a :: 0 <= a < |anchors| ==> anchors[a].previousIndex < previousCount && anchors[a].nextIndex < nextCount
  }

  predicate AnchorsRise(anchors: seq<Anchor>) {
    forall a :: 0 < a < |anchors| ==>
      anchors[a - 1].previousIndex < anchors[a].previousIndex && anchors[a - 1].nextIndex < anchors[a].nextIndex
  }

  /** Corridor `a` lies behind anchor `a - 1` and in front of anchor `a`. */
  function PreviousStart(anchors: seq<Anchor>, a: nat): nat
    requires a <= |anchors|
  {
    if a == 0 then 0 else anchors[a - 1].previousIndex + 1
  }

  function PreviousEnd(anchors: seq<Anchor>, a: nat, previousCount: nat): nat
    requires a <= |anchors|
  {
    if a == |anchors| then previousCount else anchors[a].previousIndex
  }

  function NextStart(anchors: seq<Anchor>, a: nat): nat
    requires a <= |anchors|
  {
    if a == 0 then 0 else anchors[a - 1].nextIndex + 1
  }

  function NextEnd(anchors: seq<Anchor>, a: nat, nextCount: nat): nat
    requires a <= |anchors|
  {
    if a == |anchors| then nextCount else anchors[a].nextIndex
  }

  /** Between the two ends on either side, the pairing is a corridor's own: everything of its
      shorter side, at the least total distance while the table fits. */
  ghost predicate IsPairedWithin(pairing: Pairing, previous: seq<int>, next: seq<int>,
                                 previousStart: nat, previousEnd: nat, nextStart: nat, nextEnd: nat) {
    && previousStart <= previousEnd <= |previous| && nextStart <= nextEnd <= |next| && nextEnd <= |pairing|
    && exists corridor: Pairing, selected: seq<nat> ::
         PairsBy(corridor, previous[previousStart..previousEnd], next[nextStart..nextEnd], selected)
         && pairing[nextStart..nextEnd] == Shift(corridor, previousStart)
  }

  ghost predicate CorridorPaired(pairing: Pairing, previous: seq<int>, next: seq<int>, anchors: seq<Anchor>, a: nat)
    requires a <= |anchors|
  {
    IsPairedWithin(pairing, previous, next, PreviousStart(anchors, a), PreviousEnd(anchors, a, |previous|),
                   NextStart(anchors, a), NextEnd(anchors, a, |next|))
  }

  /** Every corridor between, before and behind the anchors is paired at the least distance. */
  ghost predicate CorridorsPaired(pairing: Pairing, previous: seq<int>, next: seq<int>, anchors: seq<Anchor>) {
    forall a: nat :: a <= |anchors| ==> CorridorPaired(pairing, previous, next, anchors, a)
  }

  lemma PairedWithinStays(pairing: Pairing, more: Pairing, previous: seq<int>, next: seq<int>,
                          previousStart: nat, previousEnd: nat, nextStart: nat, nextEnd: nat)
    requires IsPairedWithin(pairing, previous, next, previousStart, previousEnd, nextStart, nextEnd)
    ensures IsPairedWithin(pairing + more, previous, next, previousStart, previousEnd, nextStart, nextEnd)
  {
    hide PairsBy;
    assert (pairing + more)[nextStart..nextEnd] == pairing[nextStart..nextEnd];
  }

  lemma CorridorIsPaired(settled: Pairing, corridor: Pairing, previous: seq<int>, next: seq<int>,
                         previousStart: nat, previousEnd: nat, nextEnd: nat, selected: seq<nat>)
    requires previousStart <= previousEnd <= |previous| && |settled| <= nextEnd <= |next|
    requires PairsBy(corridor, previous[previousStart..previousEnd], next[|settled|..nextEnd], selected)
    ensures IsPairedWithin(settled + Shift(corridor, previousStart), previous, next, previousStart, previousEnd,
            |settled|, nextEnd)
  {
    assert |corridor| == nextEnd - |settled|;
    var whole := settled + Shift(corridor, previousStart);
    assert whole[|settled|..nextEnd] == Shift(corridor, previousStart);
  }

  function Shift(pairing: Pairing, offset: nat): (shifted: Pairing)
    ensures |shifted| == |pairing|
  {
    seq(|pairing|, n requires 0 <= n < |pairing| =>
      if pairing[n].Some? then Some(pairing[n].value + offset) else None)
  }

  /** The corridors so far: everything below the two cursors is settled, and the last of it is
      an anchor. */
  ghost predicate SettledTo(pairing: Pairing, previousCursor: nat) {
    && Uncrossed(pairing, previousCursor)
    && Maximal(pairing, previousCursor)
    && (|pairing| == 0 <==> previousCursor == 0)
    && (|pairing| > 0 ==> previousCursor > 0 && pairing[|pairing| - 1] == Some((previousCursor - 1) as nat))
  }

  /** Adding a fully paired corridor keeps the whole uncrossed and maximal: a pair from before
      the last anchor to behind it would cross it. */
  lemma CorridorSettles(settled: Pairing, previousCursor: nat, corridor: Pairing, previous: seq<int>, next: seq<int>,
      selected: seq<nat>)
    requires SettledTo(settled, previousCursor) && PairsBy(corridor, previous, next, selected)
    ensures Uncrossed(settled + Shift(corridor, previousCursor), previousCursor + |previous|)
    ensures Maximal(settled + Shift(corridor, previousCursor), previousCursor + |previous|)
  {
    SelectionsPairUncrossed(corridor, previous, next, selected);
    hide PairsBy;
    var whole := settled + Shift(corridor, previousCursor);
    var s := |settled|;
    assert forall n :: 0 <= n < s ==> whole[n] == settled[n];
    assert forall n :: s <= n < |whole| ==> whole[n] == Shift(corridor, previousCursor)[n - s];
    forall p: nat, n: nat | p < previousCursor + |previous| && n < |whole| ensures !Fits(whole, p, n) {
      CorridorLeavesNoGap(settled, previousCursor, corridor, |previous|, p, n);
    }
  }

  lemma CorridorLeavesNoGap(settled: Pairing, previousCursor: nat, corridor: Pairing, previousCount: nat, p: nat,
      n: nat)
    requires SettledTo(settled, previousCursor)
    requires |corridor| <= previousCount ==> forall k :: 0 <= k < |corridor| ==> corridor[k].Some?
    requires previousCount <= |corridor| ==> forall q: nat :: q < previousCount ==> Used(corridor, q)
    requires p < previousCursor + previousCount && n < |settled| + |corridor|
    ensures !Fits(settled + Shift(corridor, previousCursor), p, n)
  {
    var shifted := Shift(corridor, previousCursor);
    var whole := settled + shifted;
    var s := |settled|;
    if n < s && p < previousCursor {
      assert !Fits(settled, p, n);
      if Used(settled, p) {
        var k :| 0 <= k < s && settled[k] == Some(p);
        assert whole[k] == Some(p);
      } else if settled[n].None? {
        assert exists k ::
              0 <= k < s && settled[k].Some? && !((k < n ==> settled[k].value < p) && (n < k ==> p < settled[k].value));
        var k :| 0 <= k < s && settled[k].Some?
            && !((k < n ==> settled[k].value < p) && (n < k ==> p < settled[k].value));
        assert whole[k] == settled[k];
      } else {
        assert whole[n] == settled[n];
      }
    } else if n < s || p < previousCursor {
      // The last anchor stands between the two.
      assert whole[s - 1] == settled[s - 1] == Some((previousCursor - 1) as nat);
    } else if |corridor| <= previousCount {
      assert whole[n] == shifted[n - s];
    } else {
      assert Used(corridor, p - previousCursor);
      var k :| 0 <= k < |corridor| && corridor[k] == Some((p - previousCursor) as nat);
      assert whole[s + k] == shifted[k] == Some(p);
    }
  }

  /** Adding the anchor that ends the corridor settles everything up to it. */
  lemma AnchorSettles(pairing: Pairing, p: nat)
    requires Uncrossed(pairing, p) && Maximal(pairing, p)
    ensures SettledTo(pairing + [Some(p)], p + 1)
  {
    var whole := pairing + [Some(p)];
    assert whole[|pairing|] == Some(p);
    forall q: nat, n: nat | q < p + 1 && n < |whole| ensures !Fits(whole, q, n) {
      if q < p && n < |pairing| {
        assert !Fits(pairing, q, n);
        if Used(pairing, q) {
          var k :| 0 <= k < |pairing| && pairing[k] == Some(q);
          assert whole[k] == Some(q);
        } else if pairing[n].None? {
          assert exists k ::
                0 <= k < |pairing| && pairing[k].Some?
                && !((k < n ==> pairing[k].value < q) && (n < k ==> q < pairing[k].value));
          var k :| 0 <= k < |pairing| && pairing[k].Some?
              && !((k < n ==> pairing[k].value < q) && (n < k ==> q < pairing[k].value));
          assert whole[k] == pairing[k];
        }
      } else if q == p {
        assert Used(whole, p);
      }
    }
  }

  /** Pair everything between, before and behind the anchors. */
  method PairCorridors(previous: seq<int>, next: seq<int>, anchors: seq<Anchor>) returns (pairing: Pairing)
    requires AnchorsWithin(anchors, |previous|, |next|) && AnchorsRise(anchors)
    ensures |pairing| == |next| && Uncrossed(pairing, |previous|) && Maximal(pairing, |previous|)
    ensures forall a :: 0 <= a < |anchors| ==> pairing[anchors[a].nextIndex] == Some(anchors[a].previousIndex)
    ensures CorridorsPaired(pairing, previous, next, anchors)
  {
    hide IsPairedWithin;
    pairing := [];
    var previousCursor: nat, nextCursor: nat := 0, 0;
    for a := 0 to |anchors|
      invariant SettledTo(pairing, previousCursor) && |pairing| == nextCursor
      invariant previousCursor == PreviousStart(anchors, a) && nextCursor == NextStart(anchors, a)
      invariant forall b :: 0 <= b < a ==>
                  anchors[b].nextIndex < nextCursor && pairing[anchors[b].nextIndex] == Some(anchors[b].previousIndex)
      invariant forall b: nat :: b < a ==> CorridorPaired(pairing, previous, next, anchors, b)
    {
      hide Uncrossed, Maximal, PairsBy;
      var end := anchors[a];
      var corridor, selected := MonotonicSourcePairs(previous[previousCursor..end.previousIndex],
          next[nextCursor..end.nextIndex]);
      CorridorSettles(pairing, previousCursor, corridor, previous[previousCursor..end.previousIndex],
          next[nextCursor..end.nextIndex], selected);
      AnchorSettles(pairing + Shift(corridor, previousCursor), end.previousIndex);
      CorridorIsPaired(pairing, corridor, previous, next, previousCursor, end.previousIndex, end.nextIndex, selected);
      OneCorridorMore(pairing, Shift(corridor, previousCursor), [Some(end.previousIndex)], previous, next, anchors, a);
      pairing := pairing + Shift(corridor, previousCursor) + [Some(end.previousIndex)];
      previousCursor, nextCursor := end.previousIndex + 1, end.nextIndex + 1;
    }
    var corridor, selected := MonotonicSourcePairs(previous[previousCursor..], next[nextCursor..]);
    CorridorSettles(pairing, previousCursor, corridor, previous[previousCursor..], next[nextCursor..], selected);
    assert previous[previousCursor..] == previous[previousCursor..|previous|]
        && next[nextCursor..] == next[nextCursor..|next|];
    CorridorIsPaired(pairing, corridor, previous, next, previousCursor, |previous|, |next|, selected);
    OneCorridorMore(pairing, Shift(corridor, previousCursor), [], previous, next, anchors, |anchors|);
    assert pairing + Shift(corridor, previousCursor) + [] == pairing + Shift(corridor, previousCursor);
    pairing := pairing + Shift(corridor, previousCursor);
  }

  lemma OneCorridorMore(pairing: Pairing, added: Pairing, anchor: Pairing, previous: seq<int>, next: seq<int>,
      anchors: seq<Anchor>, a: nat)
    requires a <= |anchors| && forall b: nat :: b < a ==> CorridorPaired(pairing, previous, next, anchors, b)
    requires CorridorPaired(pairing + added, previous, next, anchors, a)
    ensures forall b: nat :: b <= a ==> CorridorPaired(pairing + added + anchor, previous, next, anchors, b)
  {
    hide IsPairedWithin;
    forall b: nat | b <= a ensures CorridorPaired(pairing + added + anchor, previous, next, anchors, b) {
      if b < a {
        assert CorridorPaired(pairing, previous, next, anchors, b);
        PairedWithinStays(pairing, added, previous, next, PreviousStart(anchors, b),
            PreviousEnd(anchors, b, |previous|),
                          NextStart(anchors, b), NextEnd(anchors, b, |next|));
      }
      PairedWithinStays(pairing + added, anchor, previous, next, PreviousStart(anchors, b),
          PreviousEnd(anchors, b, |previous|),
                        NextStart(anchors, b), NextEnd(anchors, b, |next|));
    }
  }

  // ---- Anchors ------------------------------------------------------------------------------------------

  method PositionOf(sorted: seq<nat>, index: nat) returns (position: Option<nat>)
    ensures position.Some? ==> position.value < |sorted| && sorted[position.value] == index
    ensures position.None? ==> index !in sorted
  {
    for k := 0 to |sorted|
      invariant index !in sorted[..k]
    {
      if sorted[k] == index {
        return Some(k);
      }
      assert sorted[..k + 1] == sorted[..k] + [sorted[k]];
    }
    assert sorted[..|sorted|] == sorted;
    return None;
  }

  /** The one origin that all the blocks share, if they do. */
  function SharedOrigin(evidence: seq<Evidence>, sorted: seq<nat>): Option<int>
    requires forall k :: 0 <= k < |sorted| ==> sorted[k] < |evidence|
  {
    if |sorted| > 0 && forall k :: 0 <= k < |sorted| ==> evidence[sorted[k]].origin == evidence[sorted[0]].origin
    then evidence[sorted[0]].origin else None
  }

  method CommonDetectorOrigin(evidence: seq<Evidence>, sorted: seq<nat>) returns (common: Option<int>)
    requires forall k :: 0 <= k < |sorted| ==> sorted[k] < |evidence|
    ensures common == SharedOrigin(evidence, sorted)
  {
    common := None;
    for k := 0 to |sorted|
      invariant k == 0 ==> common.None?
      invariant k > 0 ==> common.Some? && forall l :: 0 <= l < k ==> evidence[sorted[l]].origin == common
    {
      var origin := evidence[sorted[k]].origin;
      if origin.None? {
        return None;
      }
      if common.None? {
        common := origin;
      } else if common != origin {
        return None;
      }
    }
  }

  /** Everything that is known of the two frames. */
  datatype Frames = Frames(previous: seq<Block>, next: seq<Block>,
                           previousEvidence: seq<Evidence>, nextEvidence: seq<Evidence>)
  {
    predicate Complete() {
      |previousEvidence| == |previous| && |nextEvidence| == |next|
    }
  }

  /** Block `p` is the last previous one with the lookup id of next block `i`, and has its
      fingerprint too. */
  ghost predicate IsExactCandidate(frames: Frames, i: nat, p: nat)
    requires frames.Complete() && i < |frames.next|
  {
    && p < |frames.previous|
    && frames.previousEvidence[p].lookupId == frames.nextEvidence[i].lookupId
    && (forall q :: p < q < |frames.previous| ==>
          frames.previousEvidence[q].lookupId != frames.nextEvidence[i].lookupId)
    && frames.previous[p].fingerprint == frames.next[i].fingerprint
  }

  ghost predicate AreExactCandidates(frames: Frames, exact: seq<Option<nat>>)
    requires frames.Complete()
  {
    |exact| == |frames.next| && forall i: nat, p: nat :: i < |exact| ==>
          (exact[i] == Some(p) <==> IsExactCandidate(frames, i, p))
  }

  method ExactCandidates(frames: Frames) returns (exact: seq<Option<nat>>)
    requires frames.Complete()
    ensures AreExactCandidates(frames, exact)
  {
    var previousById: map<Text, nat> := map[];
    for p := 0 to |frames.previous|
      invariant forall id :: id in previousById ==>
                  previousById[id] < p && frames.previousEvidence[previousById[id]].lookupId == id
      invariant forall q :: 0 <= q < p ==> frames.previousEvidence[q].lookupId in previousById
                                           && q <= previousById[frames.previousEvidence[q].lookupId]
    {
      previousById := previousById[frames.previousEvidence[p].lookupId := p];
    }
    exact := seq(|frames.next|, i requires 0 <= i < |frames.next| =>
      var id := frames.nextEvidence[i].lookupId;
      if id in previousById && frames.previous[previousById[id]].fingerprint == frames.next[i].fingerprint
      then Some(previousById[id]) else None);
  }

  /** The two blocks are named by one lookup id, and the naming is not merely a collision of
      physical rows: rows count only when the origin moved, or when nothing moved at all. */
  predicate IsAnchor(frames: Frames, exact: seq<Option<nat>>, previous: seq<nat>, next: seq<nat>, anchor: Anchor)
    requires frames.Complete() && |exact| == |frames.next|
    requires forall k :: 0 <= k < |previous| ==> previous[k] < |frames.previous|
    requires forall k :: 0 <= k < |next| ==> next[k] < |frames.next|
  {
    && anchor.previousIndex < |previous| && anchor.nextIndex < |next|
    && exact[next[anchor.nextIndex]] == Some(previous[anchor.previousIndex])
    && (frames.previousEvidence[previous[anchor.previousIndex]].physicalRow.Some?
        && frames.nextEvidence[next[anchor.nextIndex]].physicalRow.Some? ==>
          var previousOrigin, nextOrigin := SharedOrigin(frames.previousEvidence, previous),
              SharedOrigin(frames.nextEvidence, next);
          && previousOrigin.Some? && nextOrigin.Some?
          && (previousOrigin != nextOrigin || anchor.previousIndex == anchor.nextIndex))
  }

  /** The anchor that one next block gives, if any. */
  method AnchorOf(frames: Frames, exact: seq<Option<nat>>, fingerprint: Text, previous: seq<nat>, next: seq<nat>,
      i: nat)
    returns (found: Option<Anchor>)
    requires frames.Complete() && |exact| == |frames.next| && i < |exact|
    requires InSourceOrder(frames.previous, fingerprint, previous) && InSourceOrder(frames.next, fingerprint, next)
    requires frames.next[i].fingerprint == fingerprint
    requires exact[i].Some? ==> exact[i].value < |frames.previous|
    ensures found.Some? ==> IsAnchor(frames, exact, previous, next, found.value) && next[found.value.nextIndex] == i
    ensures forall a :: IsAnchor(frames, exact, previous, next, a) && next[a.nextIndex] == i ==> found == Some(a)
  {
    var previousOrigin := CommonDetectorOrigin(frames.previousEvidence, previous);
    var nextOrigin := CommonDetectorOrigin(frames.nextEvidence, next);
    hide SharedOrigin;
    if exact[i].None? {
      return None;
    }
    var previousIndex := PositionOf(previous, exact[i].value);
    var nextIndex := PositionOf(next, i);
    if previousIndex.Some? && nextIndex.Some? {
      PositionsAreUnique(frames.previous, fingerprint, previous);
      PositionsAreUnique(frames.next, fingerprint, next);
    }
    hide InSourceOrder;
    var detectorRowCandidate := frames.previousEvidence[exact[i].value].physicalRow.Some?
                                && frames.nextEvidence[i].physicalRow.Some?;
    var detectorOriginChanged := previousOrigin.Some? && nextOrigin.Some? && previousOrigin != nextOrigin;
    var unchangedDetectorOccurrence := detectorRowCandidate
      && previousOrigin.Some? && nextOrigin.Some? && previousOrigin == nextOrigin
      && previousIndex.Some? && nextIndex.Some? && previousIndex == nextIndex;
    if detectorRowCandidate && !detectorOriginChanged && !unchangedDetectorOccurrence {
      return None;
    }
    found := if previousIndex.Some? && nextIndex.Some? then Some(Anchor(previousIndex.value, nextIndex.value))
        else None;
  }

  lemma PositionsAreUnique(blocks: seq<Block>, fingerprint: Text, sorted: seq<nat>)
    requires InSourceOrder(blocks, fingerprint, sorted)
    ensures forall x, y :: 0 <= x < |sorted| && 0 <= y < |sorted| && sorted[x] == sorted[y] ==> x == y
  {
    forall x, y | 0 <= x < y < |sorted| ensures sorted[x] != sorted[y] {
      assert Precedes(blocks, sorted[x], sorted[y]);
    }
  }

  /** All anchors of one fingerprint, by their place on the previous side. */
  ghost predicate AreAnchors(frames: Frames, exact: seq<Option<nat>>, previous: seq<nat>, next: seq<nat>,
      anchors: seq<Anchor>)
    requires frames.Complete() && |exact| == |frames.next|
    requires forall k :: 0 <= k < |previous| ==> previous[k] < |frames.previous|
    requires forall k :: 0 <= k < |next| ==> next[k] < |frames.next|
  {
    && (forall a :: a in anchors <==> IsAnchor(frames, exact, previous, next, a))
    && (forall a, b :: 0 <= a < b < |anchors| ==>
          anchors[a].previousIndex <= anchors[b].previousIndex && anchors[a] != anchors[b])
  }

  method CollectAnchors(frames: Frames, exact: seq<Option<nat>>, fingerprint: Text, previous: seq<nat>, next: seq<nat>)
    returns (anchors: seq<Anchor>)
    requires frames.Complete() && |exact| == |frames.next|
    requires InSourceOrder(frames.previous, fingerprint, previous) && InSourceOrder(frames.next, fingerprint, next)
    requires forall i :: 0 <= i < |exact| && exact[i].Some? ==> exact[i].value < |frames.previous|
    ensures AreAnchors(frames, exact, previous, next, anchors)
  {
    hide IsAnchor;
    var found: seq<Anchor> := [];
    for i := 0 to |frames.next|
      invariant forall a :: a in found ==>
                  IsAnchor(frames, exact, previous, next, a) && a.nextIndex < |next| && next[a.nextIndex] < i
      invariant forall a ::
                  IsAnchor(frames, exact, previous, next, a) && a.nextIndex < |next| && next[a.nextIndex] < i ==>
                    a in found
      invariant forall a, b :: 0 <= a < b < |found| ==> found[a] != found[b]
    {
      if frames.next[i].fingerprint == fingerprint {
        var anchor := AnchorOf(frames, exact, fingerprint, previous, next, i);
        if anchor.Some? {
          AnchorIsWithin(frames, exact, previous, next, anchor.value);
          assert anchor.value !in found;
          found := found + [anchor.value];
        }
      }
    }
    forall a | IsAnchor(frames, exact, previous, next, a) ensures a in found {
      AnchorIsWithin(frames, exact, previous, next, a);
    }
    anchors := ByPrevious(found);
  }

  lemma AnchorIsWithin(frames: Frames, exact: seq<Option<nat>>, previous: seq<nat>, next: seq<nat>, anchor: Anchor)
    requires frames.Complete() && |exact| == |frames.next|
    requires forall k :: 0 <= k < |previous| ==> previous[k] < |frames.previous|
    requires forall k :: 0 <= k < |next| ==> next[k] < |frames.next|
    requires IsAnchor(frames, exact, previous, next, anchor)
    ensures anchor.previousIndex < |previous| && anchor.nextIndex < |next|
  {
  }

  function ByPrevious(found: seq<Anchor>): (anchors: seq<Anchor>)
    requires forall a, b :: 0 <= a < b < |found| ==> found[a] != found[b]
    ensures forall a :: a in anchors <==> a in found
    ensures forall a, b :: 0 <= a < b < |anchors| ==>
              anchors[a].previousIndex <= anchors[b].previousIndex && anchors[a] != anchors[b]
  {
    var keys := seq(|found|, a requires 0 <= a < |found| => Key(found[a].previousIndex, 0));
    var order := StableOrder(keys);
    var anchors := seq(|order|, k requires 0 <= k < |order| => found[order[k]]);
    assert forall a :: a in found ==> a in anchors by {
      forall i | 0 <= i < |found| ensures found[i] in anchors {
        assert i in order;
        var k :| 0 <= k < |order| && order[k] == i;
        assert anchors[k] == found[i];
      }
    }
    assert forall a, b :: 0 <= a < b < |anchors| ==> Before(keys, order[a], order[b]);
    anchors
  }

  /** The anchors cross nowhere and share no end. */
  ghost predicate AnchorsAgree(frames: Frames, exact: seq<Option<nat>>, previous: seq<nat>, next: seq<nat>)
    requires frames.Complete() && |exact| == |frames.next|
    requires forall k :: 0 <= k < |previous| ==> previous[k] < |frames.previous|
    requires forall k :: 0 <= k < |next| ==> next[k] < |frames.next|
  {
    forall a, b ::
          IsAnchor(frames, exact, previous, next, a) && IsAnchor(frames, exact, previous, next, b) && a != b ==>
      (a.previousIndex < b.previousIndex && a.nextIndex < b.nextIndex)
          || (b.previousIndex < a.previousIndex && b.nextIndex < a.nextIndex)
  }

  /** Checking neighbours in the sorted list is enough to know whether any two anchors clash. */
  lemma NeighboursDecide(frames: Frames, exact: seq<Option<nat>>, previous: seq<nat>, next: seq<nat>,
      anchors: seq<Anchor>)
    requires frames.Complete() && |exact| == |frames.next|
    requires forall k :: 0 <= k < |previous| ==> previous[k] < |frames.previous|
    requires forall k :: 0 <= k < |next| ==> next[k] < |frames.next|
    requires AreAnchors(frames, exact, previous, next, anchors)
    ensures AnchorsRise(anchors) <==> AnchorsAgree(frames, exact, previous, next)
  {
    hide IsAnchor;
    if AnchorsRise(anchors) {
      forall a, b | 0 <= a < b < |anchors|
        ensures anchors[a].previousIndex < anchors[b].previousIndex && anchors[a].nextIndex < anchors[b].nextIndex
      {
        RisingAnchorsRise(anchors, a, b);
      }
    }
    if AnchorsAgree(frames, exact, previous, next) {
      forall a | 0 < a < |anchors|
        ensures anchors[a - 1].previousIndex < anchors[a].previousIndex
                && anchors[a - 1].nextIndex < anchors[a].nextIndex
      {
        assert anchors[a - 1] in anchors && anchors[a] in anchors;
      }
    }
  }

  lemma RisingAnchorsRise(anchors: seq<Anchor>, a: nat, b: nat)
    requires AnchorsRise(anchors) && a < b < |anchors|
    ensures anchors[a].previousIndex < anchors[b].previousIndex && anchors[a].nextIndex < anchors[b].nextIndex
    decreases b
  {
    if a < b - 1 {
      RisingAnchorsRise(anchors, a, b - 1);
    }
  }

  // ---- Carrying ids --------------------------------------------------------------------------------------

  /** Which previous block each next block takes its id from, if any. */
  type Carriers = seq<Option<nat>>

  /** Ids go between blocks of one fingerprint, and within it in source order. */
  ghost predicate CarriedAlong(frames: Frames, carriers: Carriers) {
    && |carriers| == |frames.next|
    && (forall i: nat :: i < |carriers| && carriers[i].Some? ==>
          && IsOccurrence(frames.next, frames.next[i].fingerprint, i)
          && IsOccurrence(frames.previous, frames.next[i].fingerprint, carriers[i].value))
    && (forall a: nat, b: nat | a < |carriers| && b < |carriers| && carriers[a].Some? && carriers[b].Some? ::
          frames.next[a].fingerprint == frames.next[b].fingerprint && Precedes(frames.next, a, b) ==>
            Precedes(frames.previous, carriers[a].value, carriers[b].value))
  }

  /** No two blocks take the same one. */
  lemma CarriersDiffer(frames: Frames, carriers: Carriers, a: nat, b: nat)
    requires CarriedAlong(frames, carriers) && a < |carriers| && b < |carriers| && a != b
    requires carriers[a].Some? && carriers[b].Some?
    ensures carriers[a] != carriers[b]
  {
    if frames.next[a].fingerprint == frames.next[b].fingerprint {
      assert Precedes(frames.next, a, b) || Precedes(frames.next, b, a);
    }
  }

  /** The carriers of one fingerprint are what an uncrossed pairing of its occurrences gives. */
  ghost predicate PairedBy(frames: Frames, fingerprint: Text, carriers: Carriers, pairing: Pairing) {
    var previous, next := SortedOccurrences(frames.previous, fingerprint), SortedOccurrences(frames.next, fingerprint);
    && |carriers| == |frames.next| && |pairing| == |next| && Uncrossed(pairing, |previous|)
    && (forall n :: 0 <= n < |next| ==>
          carriers[next[n]] == if pairing[n].Some? then Some(previous[pairing[n].value]) else None)
    && (forall i :: 0 <= i < |carriers| && frames.next[i].fingerprint == fingerprint && carriers[i].Some? ==> i in next)
  }

  lemma PairedIsCarriedAlong(frames: Frames, fingerprint: Text, carriers: Carriers, pairing: Pairing, a: nat, b: nat)
    requires PairedBy(frames, fingerprint, carriers, pairing)
    requires a < |carriers| && b < |carriers| && carriers[a].Some? && carriers[b].Some?
    requires frames.next[a].fingerprint == frames.next[b].fingerprint == fingerprint && Precedes(frames.next, a, b)
    ensures carriers[a].value < |frames.previous| && carriers[b].value < |frames.previous|
    ensures Precedes(frames.previous, carriers[a].value, carriers[b].value)
  {
    var previous, next := SortedOccurrences(frames.previous, fingerprint), SortedOccurrences(frames.next, fingerprint);
    var x :| 0 <= x < |next| && next[x] == a;
    var y :| 0 <= y < |next| && next[y] == b;
    RisesTogether(frames.next, fingerprint, next, x, y);
    assert pairing[x].value < pairing[y].value;
  }

  lemma RisesTogether(blocks: seq<Block>, fingerprint: Text, sorted: seq<nat>, x: nat, y: nat)
    requires InSourceOrder(blocks, fingerprint, sorted) && x < |sorted| && y < |sorted|
    requires Precedes(blocks, sorted[x], sorted[y])
    ensures x < y
  {
    if x != y {
      var low, high := if x < y then x else y, if x < y then y else x;
      assert Precedes(blocks, sorted[low], sorted[high]);
    }
  }

  /** Write one fingerprint's pairing into the list. */
  method ApplyPairing(frames: Frames, fingerprint: Text, carriers: Carriers, pairing: Pairing)
    returns (applied: Carriers)
    requires |carriers| == |frames.next|
    requires forall i :: 0 <= i < |carriers| && frames.next[i].fingerprint == fingerprint ==> carriers[i].None?
    requires |pairing| == |SortedOccurrences(frames.next, fingerprint)|
    requires Uncrossed(pairing, |SortedOccurrences(frames.previous, fingerprint)|)
    ensures PairedBy(frames, fingerprint, applied, pairing) && |applied| == |carriers|
    ensures forall i :: 0 <= i < |carriers| && frames.next[i].fingerprint != fingerprint ==> applied[i] == carriers[i]
  {
    var previous, next := SortedOccurrences(frames.previous, fingerprint), SortedOccurrences(frames.next, fingerprint);
    applied := carriers;
    hide SortedOccurrences;
    for n := 0 to |next|
      invariant |applied| == |carriers|
      invariant forall i :: 0 <= i < |carriers| && i !in next[..n] ==> applied[i] == carriers[i]
      invariant forall k :: 0 <= k < n ==>
                  applied[next[k]] == if pairing[k].Some? then Some(previous[pairing[k].value]) else None
    {
      assert next[..n + 1] == next[..n] + [next[n]];
      forall k | 0 <= k < n ensures next[k] != next[n] {
        assert Precedes(frames.next, next[k], next[n]);
      }
      if pairing[n].Some? {
        applied := applied[next[n] := Some(previous[pairing[n].value])];
      } else {
        assert next[n] !in next[..n];
      }
    }
    assert next[..|next|] == next;
  }

  // ---- One fingerprint -------------------------------------------------------------------------------

  /** The anchors that are followed: all of them, or none where any two clash. */
  ghost predicate AreFollowed(frames: Frames, exact: seq<Option<nat>>, previous: seq<nat>, next: seq<nat>,
      anchors: seq<Anchor>)
    requires frames.Complete() && |exact| == |frames.next|
    requires forall k :: 0 <= k < |previous| ==> previous[k] < |frames.previous|
    requires forall k :: 0 <= k < |next| ==> next[k] < |frames.next|
  {
    && AnchorsRise(anchors)
    && if AnchorsAgree(frames, exact, previous, next) then forall a :: a in anchors <==>
          IsAnchor(frames, exact, previous, next, a)
       else anchors == []
  }

  /** What pairing the occurrences of one fingerprint owes: nothing crosses, no pair is missing
      that would fit, anchors that do not clash are all kept, and the corridors between them are
      paired at the least distance. */
  ghost predicate IsGroupPairing(frames: Frames, exact: seq<Option<nat>>, fingerprint: Text, pairing: Pairing)
    requires frames.Complete() && |exact| == |frames.next|
  {
    var previous, next := SortedOccurrences(frames.previous, fingerprint), SortedOccurrences(frames.next, fingerprint);
    && |pairing| == |next| && Uncrossed(pairing, |previous|) && Maximal(pairing, |previous|)
    && (AnchorsAgree(frames, exact, previous, next) ==>
          forall a :: IsAnchor(frames, exact, previous, next, a) ==> pairing[a.nextIndex] == Some(a.previousIndex))
    && exists anchors: seq<Anchor> ::
         && AreFollowed(frames, exact, previous, next, anchors)
         && CorridorsPaired(pairing, StartLines(frames.previous, previous), StartLines(frames.next, next), anchors)
  }

  /** One corridor without anchors is the whole. */
  lemma WholeIsOneCorridor(pairing: Pairing, previous: seq<int>, next: seq<int>, selected: seq<nat>)
    requires PairsBy(pairing, previous, next, selected)
    ensures CorridorsPaired(pairing, previous, next, [])
  {
    assert |pairing| == |next|;
    hide PairsBy;
    assert previous[0..|previous|] == previous && next[0..|next|] == next;
    assert pairing[0..|next|] == Shift(pairing, 0);
    assert IsPairedWithin(pairing, previous, next, 0, |previous|, 0, |next|);
    var none: seq<Anchor> := [];
    assert CorridorPaired(pairing, previous, next, none, 0);
  }

  lemma EmptySideIsPaired(pairing: Pairing, previous: seq<int>, next: seq<int>)
    requires (previous == [] || next == []) && |pairing| == |next| && forall n :: 0 <= n < |pairing| ==>
               pairing[n].None?
    ensures CorridorsPaired(pairing, previous, next, [])
  {
    var none: seq<nat> := [];
    assert IsSelection(none, |previous|, 0) && IsSelection(none, |next|, 0);
    forall other: seq<nat> | |other| == 0 ensures other == none {
    }
    assert PairsBy(pairing, previous, next, none);
    WholeIsOneCorridor(pairing, previous, next, none);
  }

  /** With nothing on the previous side there is nothing to pair. */
  lemma NothingToPair(frames: Frames, exact: seq<Option<nat>>, fingerprint: Text, pairing: Pairing)
    requires frames.Complete() && |exact| == |frames.next|
    requires SortedOccurrences(frames.previous, fingerprint) == [] || SortedOccurrences(frames.next, fingerprint) == []
    requires |pairing| == |SortedOccurrences(frames.next, fingerprint)| && forall n :: 0 <= n < |pairing| ==>
               pairing[n].None?
    ensures IsGroupPairing(frames, exact, fingerprint, pairing)
  {
    var previous, next := SortedOccurrences(frames.previous, fingerprint), SortedOccurrences(frames.next, fingerprint);
    hide SortedOccurrences, CorridorsPaired;
    EmptySideIsPaired(pairing, StartLines(frames.previous, previous), StartLines(frames.next, next));
    assert AreFollowed(frames, exact, previous, next, []);
  }

  /** Sides of one length and no anchor at all: everything is paired in order. */
  lemma FullPairing(frames: Frames, exact: seq<Option<nat>>, fingerprint: Text, pairing: Pairing, selected: seq<nat>)
    requires frames.Complete() && |exact| == |frames.next|
    requires var previous, next := SortedOccurrences(frames.previous, fingerprint),
             SortedOccurrences(frames.next, fingerprint);
             && |previous| == |next| && |pairing| == |next|
             && PairsBy(pairing, StartLines(frames.previous, previous), StartLines(frames.next, next), selected)
             && AreAnchors(frames, exact, previous, next, [])
    ensures IsGroupPairing(frames, exact, fingerprint, pairing)
  {
    var previous, next := SortedOccurrences(frames.previous, fingerprint), SortedOccurrences(frames.next, fingerprint);
    SelectionsPairUncrossed(pairing, StartLines(frames.previous, previous), StartLines(frames.next, next), selected);
    WholeIsOneCorridor(pairing, StartLines(frames.previous, previous), StartLines(frames.next, next), selected);
    hide PairsBy, SortedOccurrences, IsAnchor, CorridorsPaired;
    assert Maximal(pairing, |previous|);
    var none: seq<Anchor> := [];
    assert forall a :: a in none <==> IsAnchor(frames, exact, previous, next, a);
    assert AreFollowed(frames, exact, previous, next, none);
  }

  /** The exact candidates of a fingerprint are looked at: both sides have occurrences, and not
      just equally many without an anchor. */
  ghost predicate IsExamined(frames: Frames, exact: seq<Option<nat>>, fingerprint: Text)
    requires frames.Complete() && |exact| == |frames.next|
  {
    var previous, next := SortedOccurrences(frames.previous, fingerprint), SortedOccurrences(frames.next, fingerprint);
    && previous != [] && next != []
    && (|previous| == |next| ==> exists a :: IsAnchor(frames, exact, previous, next, a))
  }

  ghost predicate IsPairedNext(frames: Frames, fingerprint: Text, pairing: Pairing, i: nat) {
    var next := SortedOccurrences(frames.next, fingerprint);
    exists n: nat :: n < |next| && n < |pairing| && next[n] == i && pairing[n].Some?
  }

  /** Every exact candidate of the fingerprint is rejected or its block is paired. */
  ghost predicate RejectsUnpaired(frames: Frames, exact: seq<Option<nat>>, fingerprint: Text, pairing: Pairing,
      rejected: set<nat>)
    requires frames.Complete() && |exact| == |frames.next|
  {
    forall i: nat :: i < |exact| && exact[i].Some? && frames.next[i].fingerprint == fingerprint ==>
      i in rejected || IsPairedNext(frames, fingerprint, pairing, i)
  }

  /** The pairing of one fingerprint, and the exact candidates of it that were not followed. */
  method ReconcileGroup(frames: Frames, exact: seq<Option<nat>>, fingerprint: Text)
    returns (pairing: Pairing, rejected: set<nat>)
    requires frames.Complete() && |exact| == |frames.next|
    requires forall i :: 0 <= i < |exact| && exact[i].Some? ==> exact[i].value < |frames.previous|
    ensures IsGroupPairing(frames, exact, fingerprint, pairing)
    ensures forall i :: i in rejected ==> i < |exact| && exact[i].Some? && frames.next[i].fingerprint == fingerprint
    ensures if IsExamined(frames, exact, fingerprint)
            then RejectsUnpaired(frames, exact, fingerprint, pairing, rejected)
            else rejected == {}
  {
    var previous, next := SortedOccurrences(frames.previous, fingerprint), SortedOccurrences(frames.next, fingerprint);
    if |previous| == 0 || |next| == 0 {
      pairing, rejected := seq(|next|, _ => None), {};
      NothingToPair(frames, exact, fingerprint, pairing);
      return;
    }
    var anchors := CollectAnchors(frames, exact, fingerprint, previous, next);
    var previousStarts, nextStarts := StartLines(frames.previous, previous), StartLines(frames.next, next);
    ghost var selected;
    if |previous| == |next| && |anchors| == 0 {
      pairing, selected := MonotonicSourcePairs(previousStarts, nextStarts);
      FullPairing(frames, exact, fingerprint, pairing, selected);
      rejected := {};
      assert forall a :: IsAnchor(frames, exact, previous, next, a) ==> a in anchors;
      return;
    }
    if |anchors| > 0 {
      assert anchors[0] in anchors;
      assert IsAnchor(frames, exact, previous, next, anchors[0]);
    }
    pairing, rejected := PairAroundAnchors(frames, exact, fingerprint, anchors);
  }

  method PairAroundAnchors(frames: Frames, exact: seq<Option<nat>>, fingerprint: Text, anchors: seq<Anchor>)
    returns (pairing: Pairing, rejected: set<nat>)
    requires frames.Complete() && |exact| == |frames.next|
    requires AreAnchors(frames, exact, SortedOccurrences(frames.previous, fingerprint),
             SortedOccurrences(frames.next, fingerprint), anchors)
    ensures IsGroupPairing(frames, exact, fingerprint, pairing)
    ensures forall i :: i in rejected ==> i < |exact| && exact[i].Some? && frames.next[i].fingerprint == fingerprint
    ensures RejectsUnpaired(frames, exact, fingerprint, pairing, rejected)
  {
    var previous, next := SortedOccurrences(frames.previous, fingerprint), SortedOccurrences(frames.next, fingerprint);
    hide SortedOccurrences, Uncrossed, Maximal, AnchorsAgree, IsAnchor, CorridorsPaired;
    NeighboursDecide(frames, exact, previous, next, anchors);
    forall a | a in anchors ensures a.previousIndex < |previous| && a.nextIndex < |next| {
      AnchorIsWithin(frames, exact, previous, next, a);
    }
    var accepted := if AnchorsRise(anchors) then anchors else [];
    pairing := PairCorridors(StartLines(frames.previous, previous), StartLines(frames.next, next), accepted);
    assert AreFollowed(frames, exact, previous, next, accepted);
    var acceptedNext := set a | 0 <= a < |accepted| :: next[accepted[a].nextIndex];
    rejected := set i: nat | i < |exact| && frames.next[i].fingerprint == fingerprint && exact[i].Some?
        && i !in acceptedNext;
    forall i: nat | i in acceptedNext ensures IsPairedNext(frames, fingerprint, pairing, i) {
      var a :| 0 <= a < |accepted| && next[accepted[a].nextIndex] == i;
      assert pairing[accepted[a].nextIndex].Some?;
    }
  }

  // ---- All fingerprints ---------------------------------------------------------------------------------

  /** Every fingerprint of the next frame is paired as `pairings` says. */
  ghost predicate AllPaired(frames: Frames, exact: seq<Option<nat>>, carriers: Carriers, pairings: map<Text, Pairing>)
    requires frames.Complete() && |exact| == |frames.next|
  {
    && |carriers| == |frames.next|
    && (forall fingerprint :: fingerprint in pairings ==>
          && IsGroupPairing(frames, exact, fingerprint, pairings[fingerprint])
          && PairedBy(frames, fingerprint, carriers, pairings[fingerprint]))
    && (forall i :: 0 <= i < |carriers| && frames.next[i].fingerprint !in pairings ==> carriers[i].None?)
  }

  /** Changing carriers of other fingerprints leaves a pairing in force. */
  lemma PairedBySurvives(frames: Frames, other: Text, carriers: Carriers, pairing: Pairing, fingerprint: Text,
      applied: Carriers)
    requires PairedBy(frames, other, carriers, pairing) && other != fingerprint && |applied| == |carriers|
    requires forall i :: 0 <= i < |carriers| && frames.next[i].fingerprint != fingerprint ==> applied[i] == carriers[i]
    ensures PairedBy(frames, other, applied, pairing)
  {
    var next := SortedOccurrences(frames.next, other);
    assert forall n :: 0 <= n < |next| ==> frames.next[next[n]].fingerprint == other;
    hide SortedOccurrences;
  }

  /** One more fingerprint leaves those already paired alone. */
  lemma PairOneMore(frames: Frames, exact: seq<Option<nat>>, carriers: Carriers, pairings: map<Text, Pairing>,
                    fingerprint: Text, applied: Carriers, pairing: Pairing)
    requires frames.Complete() && |exact| == |frames.next|
    requires AllPaired(frames, exact, carriers, pairings) && fingerprint !in pairings
    requires IsGroupPairing(frames, exact, fingerprint, pairing) && PairedBy(frames, fingerprint, applied, pairing)
    requires |applied| == |carriers|
    requires forall i :: 0 <= i < |carriers| && frames.next[i].fingerprint != fingerprint ==> applied[i] == carriers[i]
    ensures AllPaired(frames, exact, applied, pairings[fingerprint := pairing])
  {
    hide IsGroupPairing, PairedBy;
    forall other | other in pairings ensures PairedBy(frames, other, applied, pairings[other]) {
      PairedBySurvives(frames, other, carriers, pairings[other], fingerprint, applied);
    }
  }

  lemma PairedMeansCarried(frames: Frames, exact: seq<Option<nat>>, carriers: Carriers, pairings: map<Text, Pairing>)
    requires frames.Complete() && |exact| == |frames.next|
    requires AllPaired(frames, exact, carriers, pairings)
    ensures CarriedAlong(frames, carriers)
  {
    forall i: nat | i < |carriers| && carriers[i].Some?
      ensures IsOccurrence(frames.next, frames.next[i].fingerprint, i)
      ensures IsOccurrence(frames.previous, frames.next[i].fingerprint, carriers[i].value)
    {
      PairedAreOccurrences(frames, frames.next[i].fingerprint, carriers, pairings[frames.next[i].fingerprint], i);
    }
    forall a: nat, b: nat | a < |carriers| && b < |carriers| && carriers[a].Some? && carriers[b].Some?
                            && frames.next[a].fingerprint == frames.next[b].fingerprint && Precedes(frames.next, a, b)
      ensures Precedes(frames.previous, carriers[a].value, carriers[b].value)
    {
      PairedIsCarriedAlong(frames, frames.next[a].fingerprint, carriers, pairings[frames.next[a].fingerprint], a, b);
    }
  }

  lemma PairedAreOccurrences(frames: Frames, fingerprint: Text, carriers: Carriers, pairing: Pairing, i: nat)
    requires PairedBy(frames, fingerprint, carriers, pairing)
    requires i < |carriers| && carriers[i].Some? && frames.next[i].fingerprint == fingerprint
    ensures IsOccurrence(frames.next, fingerprint, i) && IsOccurrence(frames.previous, fingerprint, carriers[i].value)
  {
    hide IsOccurrence, InSourceOrder;
    var previous := SortedOccurrences(frames.previous, fingerprint);
    var next := SortedOccurrences(frames.next, fingerprint);
    var n :| 0 <= n < |next| && next[n] == i;
    assert pairing[n].Some? && previous[pairing[n].value] in previous;
  }

  /** The pair (p, n) would cross the pair that block `k` is carried by. */
  predicate CrossesCarried(frames: Frames, carriers: Carriers, p: nat, n: nat, k: nat)
    requires p < |frames.previous| && n < |frames.next| && k < |carriers| == |frames.next|
    requires carriers[k].Some? ==> carriers[k].value < |frames.previous|
  {
    && carriers[k].Some? && frames.next[k].fingerprint == frames.next[n].fingerprint
    && (Precedes(frames.next, k, n) != Precedes(frames.previous, carriers[k].value, p))
  }

  ghost predicate IsCarried(carriers: Carriers, p: nat) {
    exists i :: 0 <= i < |carriers| && carriers[i] == Some(p)
  }

  /** Two blocks of one fingerprint, one of each frame, that nobody is paired with. */
  ghost predicate BothLeftOver(frames: Frames, carriers: Carriers, p: nat, n: nat) {
    && p < |frames.previous| && n < |frames.next| == |carriers|
    && IsOccurrence(frames.previous, frames.next[n].fingerprint, p)
    && IsOccurrence(frames.next, frames.next[n].fingerprint, n)
    && carriers[n].None? && !IsCarried(carriers, p)
  }

  ghost predicate SomethingIsCrossed(frames: Frames, carriers: Carriers, p: nat, n: nat)
    requires CarriedAlong(frames, carriers) && p < |frames.previous| && n < |frames.next|
  {
    exists k: nat :: k < |carriers| && CrossesCarried(frames, carriers, p, n, k)
  }

  /** What is left over cannot be paired any more without crossing a pair that is carried. */
  ghost predicate NothingLeftToPair(frames: Frames, carriers: Carriers) {
    && CarriedAlong(frames, carriers)
    && forall p: nat, n: nat :: BothLeftOver(frames, carriers, p, n) ==> SomethingIsCrossed(frames, carriers, p, n)
  }

  lemma NothingFits(pairing: Pairing, limit: nat, x: nat, y: nat) returns (k: nat)
    requires Maximal(pairing, limit) && x < limit && y < |pairing| && pairing[y].None? && !Used(pairing, x)
    ensures k < |pairing| && pairing[k].Some? && k != y && pairing[k].value != x
    ensures k < y <==> !(pairing[k].value < x)
  {
    assert !Fits(pairing, x, y);
    hide Maximal;
    k :| 0 <= k < |pairing| && pairing[k].Some?
         && !((k < y ==> pairing[k].value < x) && (y < k ==> x < pairing[k].value));
    assert pairing[k].value == x ==> Used(pairing, x);
  }

  lemma UsedIsCarried(frames: Frames, fingerprint: Text, carriers: Carriers, pairing: Pairing, x: nat)
    requires PairedBy(frames, fingerprint, carriers, pairing) && x < |SortedOccurrences(frames.previous, fingerprint)|
    ensures Used(pairing, x) ==> IsCarried(carriers, SortedOccurrences(frames.previous, fingerprint)[x])
  {
    var next := SortedOccurrences(frames.next, fingerprint);
    hide SortedOccurrences;
    if Used(pairing, x) {
      var k :| 0 <= k < |pairing| && pairing[k] == Some(x);
      assert carriers[next[k]].Some?;
    }
  }

  lemma LeftOverCrosses(frames: Frames, fingerprint: Text, carriers: Carriers, pairing: Pairing, p: nat, n: nat)
    requires PairedBy(frames, fingerprint, carriers, pairing)
    requires Maximal(pairing, |SortedOccurrences(frames.previous, fingerprint)|)
    requires CarriedAlong(frames, carriers) && BothLeftOver(frames, carriers, p, n)
    requires frames.next[n].fingerprint == fingerprint
    ensures SomethingIsCrossed(frames, carriers, p, n)
  {
    var previous, next := SortedOccurrences(frames.previous, fingerprint), SortedOccurrences(frames.next, fingerprint);
    assert p in previous && n in next;
    var x: nat :| x < |previous| && previous[x] == p;
    var y: nat :| y < |next| && next[y] == n;
    hide SortedOccurrences, Maximal, CarriedAlong, IsOccurrence;
    assert carriers[next[y]].None?;
    UsedIsCarried(frames, fingerprint, carriers, pairing, x);
    var k := NothingFits(pairing, |previous|, x, y);
    OrderIsOrder(frames.previous, fingerprint, previous, pairing[k].value, x);
    OrderIsOrder(frames.next, fingerprint, next, k, y);
    assert carriers[next[k]] == Some(previous[pairing[k].value]);
    assert CrossesCarried(frames, carriers, p, n, next[k]);
  }

  /** Places in the sorted list are as the blocks precede each other. */
  lemma OrderIsOrder(blocks: seq<Block>, fingerprint: Text, sorted: seq<nat>, a: nat, b: nat)
    requires InSourceOrder(blocks, fingerprint, sorted) && a < |sorted| && b < |sorted|
    ensures Precedes(blocks, sorted[a], sorted[b]) <==> a < b
  {
    if a < b {
      assert Precedes(blocks, sorted[a], sorted[b]);
    } else if b < a {
      assert Precedes(blocks, sorted[b], sorted[a]);
    }
  }

  lemma PairedLeavesNothing(frames: Frames, exact: seq<Option<nat>>, carriers: Carriers, pairings: map<Text, Pairing>)
    requires frames.Complete() && |exact| == |frames.next| && AllPaired(frames, exact, carriers, pairings)
    requires CarriedAlong(frames, carriers)
    requires forall i :: 0 <= i < |frames.next| ==> frames.next[i].fingerprint in pairings
    ensures NothingLeftToPair(frames, carriers)
  {
    forall p: nat, n: nat | BothLeftOver(frames, carriers, p, n) ensures SomethingIsCrossed(frames, carriers, p, n) {
      var fingerprint := frames.next[n].fingerprint;
      assert IsGroupPairing(frames, exact, fingerprint, pairings[fingerprint]);
      assert PairedBy(frames, fingerprint, carriers, pairings[fingerprint]);
      LeftOverCrosses(frames, fingerprint, carriers, pairings[fingerprint], p, n);
    }
  }

  /** In plain terms: for an earlier and a later block of one fingerprint that are both left over,
      some pair of that fingerprint stands before the one and behind the other. */
  lemma LeftOverStandsAcross(frames: Frames, carriers: Carriers, p: nat, n: nat) returns (k: nat)
    requires NothingLeftToPair(frames, carriers) && p < |frames.previous| && n < |frames.next|
    requires frames.previous[p].fingerprint == frames.next[n].fingerprint
    requires IsSafeInteger(frames.previous[p].sourceRange.startLine)
             && IsSafeInteger(frames.next[n].sourceRange.startLine)
    requires carriers[n].None? && forall i :: 0 <= i < |carriers| ==> carriers[i] != Some(p)
    ensures k < |carriers| && carriers[k].Some? && carriers[k].value < |frames.previous|
    ensures frames.next[k].fingerprint == frames.previous[carriers[k].value].fingerprint == frames.next[n].fingerprint
    ensures var x, y := frames.next[k].sourceRange.startLine, frames.next[n].sourceRange.startLine;
            var u, v := frames.previous[carriers[k].value].sourceRange.startLine,
                        frames.previous[p].sourceRange.startLine;
            || ((x < y || (x == y && k < n)) && (v < u || (v == u && p < carriers[k].value)))
            || ((y < x || (y == x && n < k)) && (u < v || (u == v && carriers[k].value < p)))
  {
    assert BothLeftOver(frames, carriers, p, n);
    assert SomethingIsCrossed(frames, carriers, p, n);
    k :| k < |carriers| && CrossesCarried(frames, carriers, p, n, k);
    assert carriers[k] != Some(p);
  }

  /** The only block of a fingerprint on either side is carried from one to the other. */
  lemma OnlyOnesAreCarried(frames: Frames, carriers: Carriers, p: nat, n: nat)
    requires NothingLeftToPair(frames, carriers) && p < |frames.previous| && n < |frames.next|
    requires var fingerprint := frames.next[n].fingerprint;
             && (forall q: nat :: IsOccurrence(frames.previous, fingerprint, q) <==> q == p)
             && (forall m: nat :: IsOccurrence(frames.next, fingerprint, m) <==> m == n)
    ensures carriers[n] == Some(p)
  {
    var fingerprint := frames.next[n].fingerprint;
    assert IsOccurrence(frames.previous, fingerprint, p) && IsOccurrence(frames.next, fingerprint, n);
    OnlyOneIsCarriedAt(frames, carriers, p, n);
    hide CarriedAlong, IsOccurrence;
    assert BothLeftOver(frames, carriers, p, n) ==> SomethingIsCrossed(frames, carriers, p, n);
  }

  lemma OnlyOneIsCarriedAt(frames: Frames, carriers: Carriers, p: nat, n: nat)
    requires CarriedAlong(frames, carriers) && p < |frames.previous| && n < |frames.next|
    requires var fingerprint := frames.next[n].fingerprint;
             && (forall q: nat :: IsOccurrence(frames.previous, fingerprint, q) <==> q == p)
             && (forall m: nat :: IsOccurrence(frames.next, fingerprint, m) <==> m == n)
    ensures IsCarried(carriers, p) || SomethingIsCrossed(frames, carriers, p, n) ==> carriers[n] == Some(p)
  {
    var fingerprint := frames.next[n].fingerprint;
    forall i: nat | i < |carriers| && carriers[i].Some? && frames.next[i].fingerprint == fingerprint
      ensures i == n && carriers[i] == Some(p)
    {
      assert IsOccurrence(frames.next, fingerprint, i) && IsOccurrence(frames.previous, fingerprint, carriers[i].value);
    }
    assert IsOccurrence(frames.previous, fingerprint, p);
    if IsCarried(carriers, p) {
      var i: nat :| i < |carriers| && carriers[i] == Some(p);
      assert IsOccurrence(frames.previous, frames.next[i].fingerprint, p);
    }
  }

  /** Which blocks take over whose ids, and which must get a fresh one: an exact candidate that
      was not followed, and whose block found no other predecessor. */
  method CarryIds(frames: Frames, exact: seq<Option<nat>>)
    returns (carriers: Carriers, forced: set<nat>, ghost pairings: map<Text, Pairing>)
    requires frames.Complete() && |exact| == |frames.next|
    requires forall i :: 0 <= i < |exact| && exact[i].Some? ==> exact[i].value < |frames.previous|
    ensures AllPaired(frames, exact, carriers, pairings)
    ensures forall i :: 0 <= i < |frames.next| ==> frames.next[i].fingerprint in pairings
    ensures |carriers| == |frames.next| && forall i: nat :: i in forced <==>
              i < |carriers| && IsForced(frames, exact, carriers, i)
  {
    hide AllPaired, AreForced;
    carriers, forced, pairings := seq(|frames.next|, _ => None), {}, map[];
    var done: set<Text> := {};
    NothingCarried(frames, exact, carriers);
    for i := 0 to |frames.next|
      invariant AllPaired(frames, exact, carriers, pairings)
      invariant forall f :: f in done <==> f in pairings
      invariant forall j :: 0 <= j < i ==> frames.next[j].fingerprint in done
      invariant AreForced(frames, exact, carriers, forced, pairings)
    {
      var fingerprint := frames.next[i].fingerprint;
      if fingerprint !in done {
        carriers, forced, pairings := CarryGroup(frames, exact, fingerprint, carriers, forced, pairings);
        done := done + {fingerprint};
      }
    }
    AllAreForced(frames, exact, carriers, forced, pairings);
  }

  lemma NothingCarried(frames: Frames, exact: seq<Option<nat>>, carriers: Carriers)
    requires frames.Complete() && |exact| == |frames.next| == |carriers|
    requires forall i :: 0 <= i < |carriers| ==> carriers[i].None?
    ensures AllPaired(frames, exact, carriers, map[]) && AreForced(frames, exact, carriers, {}, map[])
  {
  }

  /** A block is forced to a fresh id when it has an exact candidate that was looked at, and no
      predecessor after all. */
  ghost predicate IsForced(frames: Frames, exact: seq<Option<nat>>, carriers: Carriers, i: nat)
    requires frames.Complete() && |exact| == |frames.next| == |carriers| && i < |carriers|
  {
    carriers[i].None? && exact[i].Some? && IsExamined(frames, exact, frames.next[i].fingerprint)
  }

  /** Of the fingerprints paired so far, exactly those blocks are forced. */
  ghost predicate AreForced(frames: Frames, exact: seq<Option<nat>>, carriers: Carriers, forced: set<nat>,
      pairings: map<Text, Pairing>) {
    && frames.Complete() && |carriers| == |exact| == |frames.next|
    && (forall i: nat :: i in forced <==>
          i < |carriers| && frames.next[i].fingerprint in pairings && IsForced(frames, exact, carriers, i))
  }

  lemma AllAreForced(frames: Frames, exact: seq<Option<nat>>, carriers: Carriers, forced: set<nat>,
      pairings: map<Text, Pairing>)
    requires AreForced(frames, exact, carriers, forced, pairings)
    requires forall i :: 0 <= i < |frames.next| ==> frames.next[i].fingerprint in pairings
    ensures frames.Complete() && |carriers| == |exact| == |frames.next|
    ensures forall i: nat :: i in forced <==> i < |carriers| && IsForced(frames, exact, carriers, i)
  {
    hide IsForced;
  }

  lemma ForcedGrow(frames: Frames, exact: seq<Option<nat>>, carriers: Carriers, forced: set<nat>, pairings: map<Text,
      Pairing>,
                   applied: Carriers, more: map<Text, Pairing>, fingerprint: Text, unmatched: set<nat>)
    requires AreForced(frames, exact, carriers, forced, pairings) && fingerprint !in pairings
    requires (forall f :: f in more <==> f in pairings || f == fingerprint) && |applied| == |carriers|
    requires forall i :: 0 <= i < |carriers| && frames.next[i].fingerprint != fingerprint ==> applied[i] == carriers[i]
    requires forall i: nat :: i in unmatched <==>
               i < |exact| && frames.next[i].fingerprint == fingerprint && IsForced(frames, exact, applied, i)
    ensures AreForced(frames, exact, applied, forced + unmatched, more)
  {
    hide IsExamined;
  }

  lemma UnmatchedAreForced(frames: Frames, exact: seq<Option<nat>>, fingerprint: Text, applied: Carriers,
      pairing: Pairing,
                           rejected: set<nat>, i: nat)
    requires frames.Complete() && |exact| == |frames.next| == |applied|
             && PairedBy(frames, fingerprint, applied, pairing)
    requires forall i :: i in rejected ==> i < |exact| && exact[i].Some? && frames.next[i].fingerprint == fingerprint
    requires if IsExamined(frames, exact, fingerprint)
             then RejectsUnpaired(frames, exact, fingerprint, pairing, rejected)
             else rejected == {}
    ensures i in rejected && applied[i].None? <==>
              i < |exact| && frames.next[i].fingerprint == fingerprint && IsForced(frames, exact, applied, i)
  {
    hide SortedOccurrences, IsExamined, Uncrossed;
    if i < |exact| && IsPairedNext(frames, fingerprint, pairing, i) {
      PairedNextIsCarried(frames, fingerprint, applied, pairing, i);
    }
  }

  lemma PairedNextIsCarried(frames: Frames, fingerprint: Text, carriers: Carriers, pairing: Pairing, i: nat)
    requires PairedBy(frames, fingerprint, carriers, pairing) && IsPairedNext(frames, fingerprint, pairing, i)
             && i < |carriers|
    ensures carriers[i].Some?
  {
    hide Uncrossed;
  }

  method CarryGroup(frames: Frames, exact: seq<Option<nat>>, fingerprint: Text, carriers: Carriers, forced: set<nat>,
                    ghost pairings: map<Text, Pairing>)
    returns (applied: Carriers, more: set<nat>, ghost morePairings: map<Text, Pairing>)
    requires frames.Complete() && |exact| == |frames.next|
    requires forall i :: 0 <= i < |exact| && exact[i].Some? ==> exact[i].value < |frames.previous|
    requires AllPaired(frames, exact, carriers, pairings) && fingerprint !in pairings
    requires AreForced(frames, exact, carriers, forced, pairings)
    ensures AllPaired(frames, exact, applied, morePairings)
    ensures forall f :: f in morePairings <==> f in pairings || f == fingerprint
    ensures AreForced(frames, exact, applied, more, morePairings)
  {
    hide IsAnchor, PairedBy;
    var pairing, rejected := ReconcileGroup(frames, exact, fingerprint);
    hide SortedOccurrences, Uncrossed, Maximal, AnchorsAgree;
    applied := ApplyPairing(frames, fingerprint, carriers, pairing);
    hide IsGroupPairing;
    PairOneMore(frames, exact, carriers, pairings, fingerprint, applied, pairing);
    morePairings := pairings[fingerprint := pairing];
    var unmatched := set j | j in rejected && applied[j].None?;
    forall i: nat ensures i in unmatched <==>
          i < |exact| && frames.next[i].fingerprint == fingerprint && IsForced(frames, exact, applied, i) {
      UnmatchedAreForced(frames, exact, fingerprint, applied, pairing, rejected, i);
    }
    ForcedGrow(frames, exact, carriers, forced, pairings, applied, morePairings, fingerprint, unmatched);
    more := forced + unmatched;
  }

  // ---- Giving out ids -------------------------------------------------------------------------------------

  function ProvisionalBase(block: Block, index: nat): Text {
    block.id + Ascii(":provisional-") + SignedDecimal(block.sourceRange.startLine) + Ascii("-") + Decimal(index)
  }

  /** The id a block would like: its carrier's, or else its own. */
  function WantedId(frames: Frames, carriers: Carriers, i: nat): Text
    requires i < |carriers| == |frames.next| && (carriers[i].Some? ==> carriers[i].value < |frames.previous|)
  {
    if carriers[i].Some? then frames.previous[carriers[i].value].id else frames.next[i].id
  }

  ghost predicate CarriersExist(frames: Frames, carriers: Carriers) {
    |carriers| == |frames.next| && forall i :: 0 <= i < |carriers| && carriers[i].Some? ==>
          carriers[i].value < |frames.previous|
  }

  function ReservedIds(frames: Frames, carriers: Carriers, n: nat): (reserved: set<Text>)
    requires CarriersExist(frames, carriers) && n <= |carriers|
    ensures forall i :: 0 <= i < n && carriers[i].Some? ==> frames.previous[carriers[i].value].id in reserved
    ensures forall id :: id in reserved ==> exists i ::
              0 <= i < n && carriers[i].Some? && frames.previous[carriers[i].value].id == id
  {
    if n == 0 then {}
    else if carriers[n - 1].Some? then ReservedIds(frames, carriers, n - 1) +
        {frames.previous[carriers[n - 1].value].id}
    else ReservedIds(frames, carriers, n - 1)
  }

  /** The wanted id is out of the question: forced, reserved for another, or given out already. */
  predicate NeedsFreshId(frames: Frames, carriers: Carriers, forced: set<nat>, ids: seq<Text>, i: nat)
    requires CarriersExist(frames, carriers) && i < |carriers| && i <= |ids|
  {
    var wanted := WantedId(frames, carriers, i);
    || i in forced
    || (carriers[i].None? && wanted in ReservedIds(frames, carriers, |carriers|))
    || wanted in ids[..i]
  }

  /** A provisional id: built on the block's own, with the first number that makes it free. */
  ghost predicate IsFreshId(frames: Frames, carriers: Carriers, ids: seq<Text>, i: nat)
    requires CarriersExist(frames, carriers) && i < |carriers| && i < |ids|
  {
    var base := ProvisionalBase(frames.next[i], i);
    exists n: nat ::
          FirstFree(base, ReservedIds(frames, carriers, |carriers|), ids[..i], n)
          && ids[i] == Candidate(base, Ascii("-"), n)
  }

  ghost predicate FirstFree(base: Text, reserved: set<Text>, given: seq<Text>, n: nat) {
    && Candidate(base, Ascii("-"), n) !in given && Candidate(base, Ascii("-"), n) !in reserved
    && forall k: nat :: k < n ==> Candidate(base, Ascii("-"), k) in given || Candidate(base, Ascii("-"), k) in reserved
  }

  /** The rule for one id, given the ids before it. */
  ghost predicate IdFollowsRule(frames: Frames, carriers: Carriers, forced: set<nat>, ids: seq<Text>, i: nat)
    requires CarriersExist(frames, carriers) && i < |carriers| && i < |ids|
  {
    if NeedsFreshId(frames, carriers, forced, ids, i) then IsFreshId(frames, carriers, ids, i)
    else ids[i] == WantedId(frames, carriers, i)
  }

  ghost predicate IdsFollowRule(frames: Frames, carriers: Carriers, forced: set<nat>, ids: seq<Text>)
    requires CarriersExist(frames, carriers) && |ids| <= |carriers|
  {
    forall i: nat :: i < |ids| ==> IdFollowsRule(frames, carriers, forced, ids, i)
  }

  lemma RuleIgnoresLaterIds(frames: Frames, carriers: Carriers, forced: set<nat>, ids: seq<Text>, id: Text, i: nat)
    requires CarriersExist(frames, carriers) && i < |ids| < |carriers|
    ensures IdFollowsRule(frames, carriers, forced, ids + [id], i) == IdFollowsRule(frames, carriers, forced, ids, i)
  {
    assert (ids + [id])[..i] == ids[..i];
  }

  method GiveOutIds(frames: Frames, carriers: Carriers, forced: set<nat>) returns (ids: seq<Text>)
    requires CarriersExist(frames, carriers)
    ensures |ids| == |frames.next| && IdsFollowRule(frames, carriers, forced, ids)
  {
    var reserved := ReservedIds(frames, carriers, |carriers|);
    var seen: set<Text> := {};
    ids := [];
    for i := 0 to |frames.next|
      invariant |ids| == i && IdsFollowRule(frames, carriers, forced, ids)
      invariant forall id :: id in seen <==> id in ids
    {
      hide ReservedIds, Candidate, ProvisionalBase;
      var id := WantedId(frames, carriers, i);
      assert ids[..i] == ids;
      if i in forced || (carriers[i].None? && id in reserved) || id in seen {
        var n;
        id, n := FreshKey(ProvisionalBase(frames.next[i], i), Ascii("-"), seen + reserved);
        assert FirstFree(ProvisionalBase(frames.next[i], i), reserved, ids, n);
      }
      assert (ids + [id])[..i] == ids;
      assert IdFollowsRule(frames, carriers, forced, ids + [id], i);
      forall j: nat | j < i ensures IdFollowsRule(frames, carriers, forced, ids + [id], j) {
        RuleIgnoresLaterIds(frames, carriers, forced, ids, id, j);
      }
      hide IdFollowsRule;
      seen, ids := seen + {id}, ids + [id];
    }
  }

  /** The rule never gives an id twice. */
  lemma IdsAreDistinct(frames: Frames, carriers: Carriers, forced: set<nat>, ids: seq<Text>, a: nat, b: nat)
    requires CarriersExist(frames, carriers) && |ids| == |carriers| && IdsFollowRule(frames, carriers, forced, ids)
    requires a < b < |ids|
    ensures ids[a] != ids[b]
  {
    assert IdFollowsRule(frames, carriers, forced, ids, b);
    assert ids[b] !in ids[..b];
    assert ids[..b][a] == ids[a];
  }

  ghost predicate IdsDiffer(blocks: seq<Block>) {
    forall a, b :: 0 <= a < b < |blocks| ==> blocks[a].id != blocks[b].id
  }

  /** Nobody else is ever given an id that is reserved for a carrier's heir. */
  lemma OnlyHeirsGetReservedIds(frames: Frames, carriers: Carriers, forced: set<nat>, ids: seq<Text>, i: nat)
    requires CarriersExist(frames, carriers) && |ids| == |carriers| && IdsFollowRule(frames, carriers, forced, ids)
    requires i < |ids| && ids[i] in ReservedIds(frames, carriers, |carriers|)
    ensures carriers[i].Some? && ids[i] == frames.previous[carriers[i].value].id
  {
    hide ReservedIds;
    assert IdFollowsRule(frames, carriers, forced, ids, i);
  }

  /** When the earlier frame's ids differ, every heir gets exactly its carrier's id. */
  lemma CarriedIdsArrive(frames: Frames, carriers: Carriers, forced: set<nat>, ids: seq<Text>, i: nat)
    requires CarriersExist(frames, carriers) && |ids| == |carriers| && IdsFollowRule(frames, carriers, forced, ids)
    requires CarriedAlong(frames, carriers) && IdsDiffer(frames.previous)
    requires i < |ids| && carriers[i].Some? && i !in forced
    ensures ids[i] == frames.previous[carriers[i].value].id
  {
    var wanted := frames.previous[carriers[i].value].id;
    forall k: nat | k < i ensures ids[k] != wanted {
      if ids[k] == wanted {
        OnlyHeirsGetReservedIds(frames, carriers, forced, ids, k);
        CarriersDiffer(frames, carriers, k, i);
      }
    }
    assert wanted !in ids[..i];
    assert IdFollowsRule(frames, carriers, forced, ids, i);
  }

  // ---- The whole step ---------------------------------------------------------------------------------------

  /** The result is the next frame with other ids. */
  ghost predicate OnlyIdsChange(next: seq<Block>, reconciled: seq<Block>) {
    |reconciled| == |next| && forall i :: 0 <= i < |next| ==> reconciled[i] == next[i].(id := reconciled[i].id)
  }

  /** What the ids owe their carriers when the earlier ids differ. */
  ghost predicate HeirsKeepIds(frames: Frames, carriers: Carriers, reconciled: seq<Block>) {
    && CarriersExist(frames, carriers) && |reconciled| == |carriers|
    && (IdsDiffer(frames.previous) ==>
          forall i :: 0 <= i < |carriers| && carriers[i].Some? ==>
                reconciled[i].id == frames.previous[carriers[i].value].id)
  }

  function IdsOf(blocks: seq<Block>): (ids: seq<Text>)
    ensures |ids| == |blocks|
  {
    seq(|blocks|, i requires 0 <= i < |blocks| => blocks[i].id)
  }

  /** All ids follow the rule, with exactly the forced blocks forced. */
  ghost predicate IdsAreGivenOut(frames: Frames, exact: seq<Option<nat>>, carriers: Carriers, reconciled: seq<Block>) {
    && frames.Complete() && |exact| == |frames.next| && CarriersExist(frames, carriers) && |reconciled| == |carriers|
    && exists forced: set<nat> ::
         && (forall i: nat :: i in forced <==> i < |carriers| && IsForced(frames, exact, carriers, i))
         && IdsFollowRule(frames, carriers, forced, IdsOf(reconciled))
  }

  /** A block without carrier or exact candidate keeps its own id unless somebody has it. */
  ghost predicate StrangersKeepIds(frames: Frames, carriers: Carriers, exact: seq<Option<nat>>,
      reconciled: seq<Block>) {
    && |carriers| == |exact| == |reconciled| == |frames.next| && CarriersExist(frames, carriers)
    && (forall i | 0 <= i < |carriers| && carriers[i].None? && exact[i].None? ::
          frames.next[i].id !in ReservedIds(frames, carriers, |carriers|)
              && (forall k :: 0 <= k < i ==> reconciled[k].id != frames.next[i].id) ==>
            reconciled[i].id == frames.next[i].id)
  }

  lemma RuleKeepsStrangers(frames: Frames, carriers: Carriers, exact: seq<Option<nat>>, forced: set<nat>,
      ids: seq<Text>, reconciled: seq<Block>)
    requires CarriersExist(frames, carriers) && |ids| == |carriers| == |exact|
             && IdsFollowRule(frames, carriers, forced, ids)
    requires forall i :: i in forced ==> i < |carriers| && exact[i].Some?
    requires |reconciled| == |ids| && forall i :: 0 <= i < |ids| ==> reconciled[i].id == ids[i]
    ensures StrangersKeepIds(frames, carriers, exact, reconciled)
  {
    hide ReservedIds;
    forall i: nat | i < |carriers| && carriers[i].None? && exact[i].None?
                    && frames.next[i].id !in ReservedIds(frames, carriers, |carriers|)
                    && (forall k :: 0 <= k < i ==> reconciled[k].id != frames.next[i].id)
      ensures reconciled[i].id == frames.next[i].id
    {
      assert frames.next[i].id !in ids[..i];
      assert IdFollowsRule(frames, carriers, forced, ids, i);
    }
  }

  lemma RuleSettlesIds(frames: Frames, carriers: Carriers, forced: set<nat>, ids: seq<Text>, reconciled: seq<Block>)
    requires CarriedAlong(frames, carriers) && |ids| == |carriers| && IdsFollowRule(frames, carriers, forced, ids)
    requires forall i :: i in forced ==> i < |carriers| && carriers[i].None?
    requires |reconciled| == |ids| && forall i :: 0 <= i < |ids| ==> reconciled[i].id == ids[i]
    ensures IdsDiffer(reconciled) && HeirsKeepIds(frames, carriers, reconciled)
  {
    forall a: nat, b: nat | a < b < |ids| ensures ids[a] != ids[b] {
      IdsAreDistinct(frames, carriers, forced, ids, a, b);
    }
    if IdsDiffer(frames.previous) {
      forall i: nat | i < |carriers| && carriers[i].Some? ensures ids[i] == frames.previous[carriers[i].value].id {
        CarriedIdsArrive(frames, carriers, forced, ids, i);
      }
    }
  }

  /** Carry ids wherever blocks can be paired. */
  method CarryAllIds(frames: Frames, exact: seq<Option<nat>>)
    returns (carriers: Carriers, forced: set<nat>, ghost pairings: map<Text, Pairing>)
    requires frames.Complete() && AreExactCandidates(frames, exact)
    ensures CarriedAlong(frames, carriers) && CarriersExist(frames, carriers) && NothingLeftToPair(frames, carriers)
    ensures AllPaired(frames, exact, carriers, pairings)
    ensures forall i :: 0 <= i < |frames.next| ==> frames.next[i].fingerprint in pairings
    ensures |carriers| == |frames.next| && forall i: nat :: i in forced <==>
              i < |carriers| && IsForced(frames, exact, carriers, i)
  {
    hide NothingLeftToPair, AllPaired, IsForced, IsExamined;
    assert forall i :: 0 <= i < |exact| && exact[i].Some? ==> IsExactCandidate(frames, i, exact[i].value);
    carriers, forced, pairings := CarryIds(frames, exact);
    PairedMeansCarried(frames, exact, carriers, pairings);
    PairedLeavesNothing(frames, exact, carriers, pairings);
  }

  lemma ForcedHaveNoCarrier(frames: Frames, exact: seq<Option<nat>>, carriers: Carriers, forced: set<nat>)
    requires frames.Complete() && |exact| == |frames.next| == |carriers|
    requires forall i: nat :: i in forced <==> i < |carriers| && IsForced(frames, exact, carriers, i)
    ensures forall i :: i in forced ==> i < |carriers| && carriers[i].None?
    ensures forall i :: i in forced ==> exact[i].Some?
  {
  }

  method ReconcileAgainst(frames: Frames, exact: seq<Option<nat>>)
    returns (reconciled: seq<Block>, ghost carriers: Carriers, ghost pairings: map<Text, Pairing>)
    requires frames.Complete() && AreExactCandidates(frames, exact)
    ensures OnlyIdsChange(frames.next, reconciled) && IdsDiffer(reconciled)
    ensures CarriedAlong(frames, carriers) && AllPaired(frames, exact, carriers, pairings)
    ensures forall i :: 0 <= i < |frames.next| ==> frames.next[i].fingerprint in pairings
    ensures HeirsKeepIds(frames, carriers, reconciled) && StrangersKeepIds(frames, carriers, exact, reconciled)
    ensures IdsAreGivenOut(frames, exact, carriers, reconciled) && NothingLeftToPair(frames, carriers)
  {
    hide NothingLeftToPair, AllPaired, AreExactCandidates, IdsFollowRule, HeirsKeepIds, StrangersKeepIds, IdsDiffer,
        IsExamined, CarriedAlong, IsForced, CarriersExist;
    var carried, forced;
    carried, forced, pairings := CarryAllIds(frames, exact);
    assert |exact| == |frames.next| by { CandidatesFit(frames, exact); }
    ForcedHaveNoCarrier(frames, exact, carried, forced);
    var ids := GiveOutIds(frames, carried, forced);
    reconciled := seq(|frames.next|, i requires 0 <= i < |frames.next| => frames.next[i].(id := ids[i]));
    RuleSettlesIds(frames, carried, forced, ids, reconciled);
    RuleKeepsStrangers(frames, carried, exact, forced, ids, reconciled);
    assert IdsOf(reconciled) == ids;
    carriers := carried;
  }

  lemma CandidatesFit(frames: Frames, exact: seq<Option<nat>>)
    requires frames.Complete() && AreExactCandidates(frames, exact)
    ensures |exact| == |frames.next|
  {
  }

  method ReconcileToolBlockIds(frames: Frames)
    returns (reconciled: seq<Block>, ghost carriers: Carriers, ghost pairings: map<Text, Pairing>,
        ghost exact: seq<Option<nat>>)
    requires frames.Complete()
    ensures frames.previous == [] || frames.next == [] ==> reconciled == frames.next
    ensures OnlyIdsChange(frames.next, reconciled)
    ensures frames.previous != [] && frames.next != [] ==>
              && IdsDiffer(reconciled)
              && CarriedAlong(frames, carriers) && NothingLeftToPair(frames, carriers)
              && HeirsKeepIds(frames, carriers, reconciled)
              && StrangersKeepIds(frames, carriers, exact, reconciled)
                  && IdsAreGivenOut(frames, exact, carriers, reconciled)
              && AreExactCandidates(frames, exact) && AllPaired(frames, exact, carriers, pairings)
              && (forall i :: 0 <= i < |frames.next| ==> frames.next[i].fingerprint in pairings)
  {
    if |frames.previous| == 0 || |frames.next| == 0 {
      reconciled, carriers, pairings, exact := frames.next, [], map[], [];
      return;
    }
    var candidates := ExactCandidates(frames);
    reconciled, carriers, pairings := ReconcileAgainst(frames, candidates);
    exact := candidates;
  }
}
