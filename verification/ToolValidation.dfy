/** Validating blocks together (`validateToolCollapseBlocks` of core/src/tool-projection.ts):
    duplicate ids and an interval sweep decide which of the individually proved blocks stand. */
module ToolValidation {
  import opened Wrappers
  import opened Text
  import opened StableSort
  import opened ToolBlocks

  datatype Rejection = Rejection(block: Block, reason: Reason)

  datatype Validation = Validation(acceptedBlocks: seq<Block>, rejectedBlocks: seq<Rejection>)

  // ---- Which blocks stand ---------------------------------------------------------------------

  ghost predicate Proved(blocks: seq<Block>, lineCount: nat, i: nat) {
    i < |blocks| && WellProved(blocks[i], lineCount)
  }

  /** Block `i` shares a source row with another proved block. */
  ghost predicate Collides(blocks: seq<Block>, lineCount: nat, i: nat)
    requires i < |blocks|
  {
    exists j: nat :: j != i && Proved(blocks, lineCount, j) && Overlaps(blocks[i].sourceRange, blocks[j].sourceRange)
  }

  /** Block `i` shares its id with another proved block. */
  ghost predicate Duplicated(blocks: seq<Block>, lineCount: nat, i: nat)
    requires i < |blocks|
  {
    exists j: nat :: j != i && Proved(blocks, lineCount, j) && blocks[i].id == blocks[j].id
  }

  /** Why block `i` is rejected, if it is: a collision is reported before a duplicate id. */
  ghost function Verdict(blocks: seq<Block>, lineCount: nat, i: nat): Option<Reason>
    requires i < |blocks|
  {
    if !Proved(blocks, lineCount, i) then Flaw(blocks[i], lineCount)
    else if Collides(blocks, lineCount, i) then Some(BlockOverlap)
    else if Duplicated(blocks, lineCount, i) then Some(DuplicateId)
    else None
  }

  /** A block is rejected exactly when it is not proved on its own, or collides with or has
      the id of another that is. */
  lemma VerdictMeaning(blocks: seq<Block>, lineCount: nat, i: nat)
    requires i < |blocks|
    ensures Verdict(blocks, lineCount, i).Some? <==>
            || !WellProved(blocks[i], lineCount)
            || Collides(blocks, lineCount, i)
            || Duplicated(blocks, lineCount, i)
  {
    FlawlessIsWellProved(blocks[i], lineCount);
  }

  /** Blocks that stand are disjoint and have different ids. */
  lemma StandingBlocksAreApart(blocks: seq<Block>, lineCount: nat, i: nat, j: nat)
    requires i < |blocks| && j < |blocks| && i != j
    requires Verdict(blocks, lineCount, i).None? && Verdict(blocks, lineCount, j).None?
    ensures !Overlaps(blocks[i].sourceRange, blocks[j].sourceRange) && blocks[i].id != blocks[j].id
  {
    VerdictMeaning(blocks, lineCount, i);
    VerdictMeaning(blocks, lineCount, j);
    assert Proved(blocks, lineCount, j);
  }

  // ---- The sweep ----------------------------------------------------------------------------------

  /** Starts ascending, then ends descending. */
  function SweepKeys(blocks: seq<Block>, valid: seq<nat>): (keys: seq<Key>)
    requires forall k :: 0 <= k < |valid| ==> valid[k] < |blocks|
    ensures |keys| == |valid|
  {
    seq(|valid|, k requires 0 <= k < |valid| =>
      Key(blocks[valid[k]].sourceRange.startLine, -blocks[valid[k]].sourceRange.endLine))
  }

  /** Ranges in order of their starts, none empty. */
  ghost predicate Sweepable(ranges: seq<LineRange>) {
    && (forall i :: 0 <= i < |ranges| ==> ranges[i].startLine < ranges[i].endLine)
    && (forall i, j :: 0 <= i < j < |ranges| ==> ranges[i].startLine <= ranges[j].startLine)
  }

  ghost predicate MeetsAmong(ranges: seq<LineRange>, i: nat, n: nat)
    requires i < n <= |ranges|
  {
    exists j :: 0 <= j < n && j != i && Overlaps(ranges[i], ranges[j])
  }

  ghost predicate IsFurthest(ranges: seq<LineRange>, n: nat, f: nat)
    requires n <= |ranges|
  {
    f < n && forall i :: 0 <= i < n ==> ranges[i].endLine <= ranges[f].endLine
  }

  /** One step of the sweep: comparing with the furthest predecessor alone brings the marks
      up to date, because whatever else the new range meets already meets the furthest. */
  lemma SweepStep(ranges: seq<LineRange>, n: nat, f: nat, i: nat)
    requires Sweepable(ranges) && n < |ranges| && IsFurthest(ranges, n, f) && i <= n
    ensures var meets := Overlaps(ranges[f], ranges[n]);
            MeetsAmong(ranges, i, n + 1) <==>
              if i == n then meets else MeetsAmong(ranges, i, n) || (meets && i == f)
  {
    if i == n {
      if MeetsAmong(ranges, n, n + 1) {
        var j :| 0 <= j < n + 1 && j != n && Overlaps(ranges[n], ranges[j]);
        assert ranges[j].endLine <= ranges[f].endLine;
      }
      assert Overlaps(ranges[f], ranges[n]) ==> Overlaps(ranges[n], ranges[f]);
    } else {
      if MeetsAmong(ranges, i, n) {
        var j :| 0 <= j < n && j != i && Overlaps(ranges[i], ranges[j]);
        assert 0 <= j < n + 1;
      }
      if Overlaps(ranges[i], ranges[n]) && i != f {
        assert ranges[i].endLine <= ranges[f].endLine;
        assert Overlaps(ranges[i], ranges[f]);
      }
      if MeetsAmong(ranges, i, n + 1) {
        var j :| 0 <= j < n + 1 && j != i && Overlaps(ranges[i], ranges[j]);
        assert j == n ==> ranges[i].endLine <= ranges[f].endLine;
      }
    }
  }

  /** Mark every range that meets another, comparing each only with the furthest-reaching one
      before it. */
  method Sweep(ranges: seq<LineRange>) returns (marked: seq<bool>)
    requires Sweepable(ranges)
    ensures |marked| == |ranges|
    ensures forall i :: 0 <= i < |ranges| ==> (marked[i] <==> MeetsAmong(ranges, i, |ranges|))
  {
    marked := seq(|ranges|, _ => false);
    if |ranges| == 0 { return; }
    var furthest := 0;
    for current := 1 to |ranges|
      invariant |marked| == |ranges| && IsFurthest(ranges, current, furthest)
      invariant forall i :: 0 <= i < current ==> (marked[i] <==> MeetsAmong(ranges, i, current))
      invariant forall i :: current <= i < |ranges| ==> !marked[i]
    {
      forall i | 0 <= i <= current
        ensures var meets := Overlaps(ranges[furthest], ranges[current]);
                MeetsAmong(ranges, i, current + 1) <==>
                  if i == current then meets else MeetsAmong(ranges, i, current) || (meets && i == furthest)
      {
        SweepStep(ranges, current, furthest, i);
      }
      if Overlaps(ranges[furthest], ranges[current]) {
        marked := marked[furthest := true][current := true];
      }
      if ranges[current].endLine > ranges[furthest].endLine {
        furthest := current;
      }
    }
  }

  // ---- The whole validation -----------------------------------------------------------------------

  /** The blocks from `i` on that are rejected, with their reasons, in the caller's order. */
  ghost function RejectedFrom(blocks: seq<Block>, lineCount: nat, i: nat): seq<Rejection>
    requires i <= |blocks|
    decreases |blocks| - i
  {
    if i == |blocks| then []
    else
      var rest := RejectedFrom(blocks, lineCount, i + 1);
      match Verdict(blocks, lineCount, i)
      case None => rest
      case Some(reason) => [Rejection(blocks[i], reason)] + rest
  }

  /** The indices below `n` of the blocks that stand. */
  ghost function Standing(blocks: seq<Block>, lineCount: nat, n: nat): (standing: seq<nat>)
    requires n <= |blocks|
    ensures forall i: nat :: i in standing <==> i < n && Verdict(blocks, lineCount, i).None?
    ensures forall k :: 0 <= k < |standing| ==> standing[k] < n
    ensures forall a, b :: 0 <= a < b < |standing| ==> standing[a] < standing[b]
  {
    if n == 0 then []
    else
      var before := Standing(blocks, lineCount, n - 1);
      if Verdict(blocks, lineCount, n - 1).None? then before + [n - 1] else before
  }

  function ByBlockStart(blocks: seq<Block>): (keys: seq<Key>)
    ensures |keys| == |blocks|
  {
    seq(|blocks|, i requires 0 <= i < |blocks| => Key(blocks[i].sourceRange.startLine, 0))
  }

  function SortedByStart(blocks: seq<Block>): (sorted: seq<Block>)
    ensures |sorted| == |blocks|
  {
    Arrange(blocks, StableOrder(ByBlockStart(blocks)))
  }

  /** The blocks that stand, in order of their starts; and the others, each with its reason. */
  ghost predicate IsValidation(blocks: seq<Block>, lineCount: nat, v: Validation) {
    && v.acceptedBlocks == SortedByStart(Arrange(blocks, Standing(blocks, lineCount, |blocks|)))
    && v.rejectedBlocks == RejectedFrom(blocks, lineCount, 0)
  }

  /** Blocks one after the other, each complete in itself, no two with the same id. */
  ghost predicate InSequence(accepted: seq<Block>, lineCount: nat) {
    && (forall k :: 0 <= k < |accepted| ==> WellProved(accepted[k], lineCount))
    && (forall a, b :: 0 <= a < b < |accepted| ==>
          && accepted[a].sourceRange.endLine <= accepted[b].sourceRange.startLine
          && accepted[a].id != accepted[b].id)
  }

  lemma AcceptedAreInSequence(blocks: seq<Block>, lineCount: nat, v: Validation)
    requires IsValidation(blocks, lineCount, v)
    ensures InSequence(v.acceptedBlocks, lineCount)
  {
    var standing := Standing(blocks, lineCount, |blocks|);
    var chosen := Arrange(blocks, standing);
    var order := StableOrder(ByBlockStart(chosen));
    forall k | 0 <= k < |order| ensures WellProved(v.acceptedBlocks[k], lineCount) {
      StandsAt(blocks, lineCount, standing, order[k]);
    }
    forall a, b | 0 <= a < b < |order|
      ensures v.acceptedBlocks[a].sourceRange.endLine <= v.acceptedBlocks[b].sourceRange.startLine
      ensures v.acceptedBlocks[a].id != v.acceptedBlocks[b].id
    {
      assert Before(ByBlockStart(chosen), order[a], order[b]);
      StandsAt(blocks, lineCount, standing, order[a]);
      StandsAt(blocks, lineCount, standing, order[b]);
      StandingBlocksAreApart(blocks, lineCount, standing[order[a]], standing[order[b]]);
    }
  }

  lemma StandsAt(blocks: seq<Block>, lineCount: nat, standing: seq<nat>, k: nat)
    requires standing == Standing(blocks, lineCount, |blocks|) && k < |standing|
    ensures standing[k] < |blocks| && Verdict(blocks, lineCount, standing[k]).None?
    ensures WellProved(blocks[standing[k]], lineCount)
  {
    assert standing[k] in standing;
    VerdictMeaning(blocks, lineCount, standing[k]);
  }

  ghost predicate SharesId(blocks: seq<Block>, valid: seq<nat>, i: nat)
    requires i < |blocks| && forall k :: 0 <= k < |valid| ==> valid[k] < |blocks|
  {
    exists j :: j in valid && j != i && blocks[j].id == blocks[i].id
  }

  /** Owners of each id among the valid blocks; those that share theirs are duplicates. */
  method DuplicateIds(blocks: seq<Block>, valid: seq<nat>) returns (duplicates: set<nat>)
    requires forall k :: 0 <= k < |valid| ==> valid[k] < |blocks|
    requires forall a, b :: 0 <= a < b < |valid| ==> valid[a] < valid[b]
    ensures forall i :: i in duplicates <==> i in valid && SharesId(blocks, valid, i)
  {
    var idOwners: map<Text, set<nat>> := map[];
    for k := 0 to |valid|
      invariant forall id, i :: (id in idOwners && i in idOwners[id]) <==> (i in valid[..k] && blocks[i].id == id)
    {
      var index := valid[k];
      var id := blocks[index].id;
      ghost var earlier := idOwners;
      idOwners := idOwners[id := (if id in idOwners then idOwners[id] else {}) + {index}];
      assert valid[..k + 1] == valid[..k] + [index];
    }
    assert valid[..|valid|] == valid;
    duplicates := {};
    for k := 0 to |valid|
      invariant forall i :: i in duplicates <==> i in valid[..k] && SharesId(blocks, valid, i)
    {
      var index := valid[k];
      assert index in valid && valid[..k + 1] == valid[..k] + [index];
      var owners := idOwners[blocks[index].id];
      assert forall j :: j in owners <==> j in valid && blocks[j].id == blocks[index].id;
      if owners != {index} {
        assert SharesId(blocks, valid, index) by {
          var j :| j in owners && j != index;
        }
        duplicates := duplicates + {index};
      }
    }
  }

  /** The source ranges of the valid blocks in sweep order. */
  function SweepRanges(blocks: seq<Block>, valid: seq<nat>, order: seq<nat>): (ranges: seq<LineRange>)
    requires forall k :: 0 <= k < |valid| ==> valid[k] < |blocks|
    requires forall k :: 0 <= k < |order| ==> order[k] < |valid|
    ensures |ranges| == |order|
  {
    seq(|order|, k requires 0 <= k < |order| => blocks[valid[order[k]]].sourceRange)
  }

  /** `valid` lists the individually proved blocks in their own order. */
  ghost predicate ListsProved(blocks: seq<Block>, lineCount: nat, valid: seq<nat>) {
    && (forall k :: 0 <= k < |valid| ==> valid[k] < |blocks|)
    && (forall a, b :: 0 <= a < b < |valid| ==> valid[a] < valid[b])
    && (forall i: nat :: i in valid <==> Proved(blocks, lineCount, i))
  }

  lemma SweepRangesAreSweepable(blocks: seq<Block>, lineCount: nat, valid: seq<nat>, order: seq<nat>)
    requires ListsProved(blocks, lineCount, valid) && IsStableOrder(SweepKeys(blocks, valid), order)
    ensures Sweepable(SweepRanges(blocks, valid, order))
  {
    forall k | 0 <= k < |order|
      ensures blocks[valid[order[k]]].sourceRange.startLine < blocks[valid[order[k]]].sourceRange.endLine
    {
      assert valid[order[k]] in valid;
    }
    forall a, b | 0 <= a < b < |order|
      ensures blocks[valid[order[a]]].sourceRange.startLine <= blocks[valid[order[b]]].sourceRange.startLine
    {
      assert Before(SweepKeys(blocks, valid), order[a], order[b]);
    }
  }

  /** What the sweep marks is what collides. */
  lemma SweepSeesCollisions(blocks: seq<Block>, lineCount: nat, valid: seq<nat>, order: seq<nat>, k: nat)
    requires ListsProved(blocks, lineCount, valid) && IsStableOrder(SweepKeys(blocks, valid), order)
    requires k < |order|
    ensures MeetsAmong(SweepRanges(blocks, valid, order), k, |order|) <==>
            Collides(blocks, lineCount, valid[order[k]])
  {
    var ranges := SweepRanges(blocks, valid, order);
    var i := valid[order[k]];
    if MeetsAmong(ranges, k, |order|) {
      var l :| 0 <= l < |order| && l != k && Overlaps(ranges[k], ranges[l]);
      var j := valid[order[l]];
      assert j in valid && Proved(blocks, lineCount, j);
      assert order[k] != order[l] by {
        if k < l { assert Before(SweepKeys(blocks, valid), order[k], order[l]); }
        else { assert Before(SweepKeys(blocks, valid), order[l], order[k]); }
      }
      assert j != i;
    }
    if Collides(blocks, lineCount, i) {
      var j: nat :| j != i && Proved(blocks, lineCount, j) && Overlaps(blocks[i].sourceRange, blocks[j].sourceRange);
      assert j in valid;
      var m: nat :| m < |valid| && valid[m] == j;
      assert m in order;
      var l :| 0 <= l < |order| && order[l] == m;
      assert Overlaps(ranges[k], ranges[l]) && l != k;
    }
  }

  /** The map from index to reason that the marks add up to. */
  ghost predicate ReasonsFor(blocks: seq<Block>, lineCount: nat, reasons: map<nat, Reason>) {
    forall i: nat :: i < |blocks| ==> Verdict(blocks, lineCount, i) == ReasonAt(reasons, i)
  }

  method ClassifyAll(blocks: seq<Block>, lineCount: nat) returns (reasons: map<nat, Reason>, valid: seq<nat>)
    ensures forall i: nat :: i in reasons ==> i < |blocks|
    ensures forall i: nat :: i < |blocks| ==> Flaw(blocks[i], lineCount) == ReasonAt(reasons, i)
    ensures ListsProved(blocks, lineCount, valid)
  {
    reasons, valid := map[], [];
    for index := 0 to |blocks|
      invariant forall i: nat :: i in reasons ==> i < index
      invariant forall i: nat :: i < index ==> Flaw(blocks[i], lineCount) == ReasonAt(reasons, i)
      invariant forall k :: 0 <= k < |valid| ==> valid[k] < index
      invariant forall a, b :: 0 <= a < b < |valid| ==> valid[a] < valid[b]
      invariant forall i: nat :: i in valid <==> i < index && Proved(blocks, lineCount, i)
    {
      var reason := ClassifyOne(blocks[index], lineCount);
      FlawlessIsWellProved(blocks[index], lineCount);
      if reason.Some? {
        reasons := reasons[index := reason.value];
      } else {
        valid := valid + [index];
      }
    }
  }

  /** The valid blocks that the sweep finds to collide. */
  method CollidingBlocks(blocks: seq<Block>, ghost lineCount: nat, valid: seq<nat>) returns (colliding: set<nat>)
    requires ListsProved(blocks, lineCount, valid)
    ensures forall i: nat :: i in colliding <==> i in valid && Collides(blocks, lineCount, i)
  {
    hide ListsProved, Collides, MeetsAmong, Sweepable;
    ValidInRange(blocks, lineCount, valid);
    var order := StableOrder(SweepKeys(blocks, valid));
    SweepRangesAreSweepable(blocks, lineCount, valid, order);
    var marked := Sweep(SweepRanges(blocks, valid, order));
    colliding := {};
    for k := 0 to |order|
      invariant forall i: nat :: i in colliding <==> exists l :: 0 <= l < k && marked[l] && valid[order[l]] == i
    {
      if marked[k] {
        colliding := colliding + {valid[order[k]]};
      }
    }
    forall i: nat ensures i in colliding <==> i in valid && Collides(blocks, lineCount, i) {
      if i in valid {
        SweptIsColliding(blocks, lineCount, valid, order, marked, i);
      }
    }
  }

  lemma ValidInRange(blocks: seq<Block>, lineCount: nat, valid: seq<nat>)
    requires ListsProved(blocks, lineCount, valid)
    ensures forall k :: 0 <= k < |valid| ==> valid[k] < |blocks|
    ensures forall i :: i in valid ==> i < |blocks|
  {
  }

  /** Reasons for all blocks: flaws, then duplicate ids, then collisions written over them. */
  method JudgeTogether(blocks: seq<Block>, ghost lineCount: nat, flaws: map<nat, Reason>, valid: seq<nat>)
    returns (reasons: map<nat, Reason>)
    requires ListsProved(blocks, lineCount, valid)
    requires forall i: nat :: i < |blocks| ==> Flaw(blocks[i], lineCount) == ReasonAt(flaws, i)
    ensures ReasonsFor(blocks, lineCount, reasons)
  {
    ValidInRange(blocks, lineCount, valid);
    assert forall a, b :: 0 <= a < b < |valid| ==> valid[a] < valid[b];
    var duplicates := DuplicateIds(blocks, valid);
    var colliding := CollidingBlocks(blocks, lineCount, valid);
    reasons := Overlay(Overlay(flaws, duplicates, DuplicateId), colliding, BlockOverlap);
    hide ReasonAt, Flaw, Verdict, ListsProved, Collides, SharesId, Overlay;
    forall i: nat | i < |blocks| ensures Verdict(blocks, lineCount, i) == ReasonAt(reasons, i) {
      VerdictFromLists(blocks, lineCount, valid, i);
      OverlayAt(flaws, duplicates, DuplicateId, i);
      OverlayAt(Overlay(flaws, duplicates, DuplicateId), colliding, BlockOverlap, i);
    }
  }

  function ReasonAt(reasons: map<nat, Reason>, i: nat): Option<Reason> {
    if i in reasons then Some(reasons[i]) else None
  }

  /** Set one reason for every index of a set. */
  function Overlay(reasons: map<nat, Reason>, indices: set<nat>, reason: Reason): map<nat, Reason> {
    reasons + (map i | i in indices :: reason)
  }

  lemma OverlayAt(reasons: map<nat, Reason>, indices: set<nat>, reason: Reason, i: nat)
    ensures ReasonAt(Overlay(reasons, indices, reason), i) == if i in indices then Some(reason)
            else ReasonAt(reasons, i)
  {
  }

  lemma VerdictFromLists(blocks: seq<Block>, lineCount: nat, valid: seq<nat>, i: nat)
    requires ListsProved(blocks, lineCount, valid) && i < |blocks|
    ensures forall k :: 0 <= k < |valid| ==> valid[k] < |blocks|
    ensures Verdict(blocks, lineCount, i) ==
              if i !in valid then Flaw(blocks[i], lineCount)
              else if Collides(blocks, lineCount, i) then Some(BlockOverlap)
              else if SharesId(blocks, valid, i) then Some(DuplicateId)
              else None
    ensures i in valid ==> Flaw(blocks[i], lineCount).None?
  {
    FlawlessIsWellProved(blocks[i], lineCount);
    assert i in valid ==> (SharesId(blocks, valid, i) <==> Duplicated(blocks, lineCount, i));
  }

  lemma SweptIsColliding(blocks: seq<Block>, lineCount: nat, valid: seq<nat>, order: seq<nat>, marked: seq<bool>,
      i: nat)
    requires ListsProved(blocks, lineCount, valid) && IsStableOrder(SweepKeys(blocks, valid), order)
    requires |marked| == |order|
    requires forall k :: 0 <= k < |order| ==>
               (marked[k] <==> MeetsAmong(SweepRanges(blocks, valid, order), k, |order|))
    requires i in valid
    ensures (exists l :: 0 <= l < |order| && marked[l] && valid[order[l]] == i) <==> Collides(blocks, lineCount, i)
  {
    var m: nat :| m < |valid| && valid[m] == i;
    assert m in order;
    var l :| 0 <= l < |order| && order[l] == m;
    SweepSeesCollisions(blocks, lineCount, valid, order, l);
    forall k | 0 <= k < |order| && valid[order[k]] == i ensures marked[k] <==> Collides(blocks, lineCount, i) {
      SweepSeesCollisions(blocks, lineCount, valid, order, k);
    }
  }

  method ValidateToolCollapseBlocks(rawLines: seq<Text>, blocks: seq<Block>) returns (validation: Validation)
    ensures IsValidation(blocks, |rawLines|, validation)
  {
    hide ListsProved, Flaw, Verdict, WellProved;
    ghost var lineCount := |rawLines|;
    var flaws, valid := ClassifyAll(blocks, |rawLines|);
    var rejectedByIndex := JudgeTogether(blocks, |rawLines|, flaws, valid);
    var accepted: seq<nat> := [];
    for index := 0 to |blocks|
      invariant accepted == Standing(blocks, lineCount, index)
    {
      if index !in rejectedByIndex {
        accepted := accepted + [index];
      }
    }
    var rejectedBlocks: seq<Rejection> := [];
    for index := |blocks| downto 0
      invariant rejectedBlocks == RejectedFrom(blocks, lineCount, index)
    {
      if index in rejectedByIndex {
        rejectedBlocks := [Rejection(blocks[index], rejectedByIndex[index])] + rejectedBlocks;
      }
    }
    validation := Validation(SortedByStart(Arrange(blocks, accepted)), rejectedBlocks);
  }

  // ---- Blocks that already stand in sequence ----------------------------------------------------------

  lemma SequenceSuffix(blocks: seq<Block>, lineCount: nat, from: nat)
    requires InSequence(blocks, lineCount) && from <= |blocks|
    ensures InSequence(blocks[from..], lineCount)
  {
    hide WellProved;
  }

  lemma SequenceStands(blocks: seq<Block>, lineCount: nat, i: nat)
    requires InSequence(blocks, lineCount) && i < |blocks|
    ensures Verdict(blocks, lineCount, i).None?
  {
    VerdictMeaning(blocks, lineCount, i);
    forall j: nat | j != i && Proved(blocks, lineCount, j)
      ensures !Overlaps(blocks[i].sourceRange, blocks[j].sourceRange) && blocks[i].id != blocks[j].id
    {
      var low, high := if i < j then i else j, if i < j then j else i;
      assert blocks[low].sourceRange.endLine <= blocks[high].sourceRange.startLine && blocks[low].id != blocks[high].id;
    }
  }

  lemma {:induction false} AllStand(blocks: seq<Block>, lineCount: nat, n: nat)
    requires InSequence(blocks, lineCount) && n <= |blocks|
    ensures Standing(blocks, lineCount, n) == seq(n, k => k)
  {
    if n > 0 {
      SequenceStands(blocks, lineCount, n - 1);
      AllStand(blocks, lineCount, n - 1);
      hide Verdict, InSequence;
      assert seq(n, k => k) == seq(n - 1, k => k) + [n - 1];
    } else {
      assert seq(0, k => k) == [];
    }
  }

  lemma {:induction false} NoneRejected(blocks: seq<Block>, lineCount: nat, i: nat)
    requires InSequence(blocks, lineCount) && i <= |blocks|
    ensures RejectedFrom(blocks, lineCount, i) == []
    decreases |blocks| - i
  {
    if i < |blocks| {
      SequenceStands(blocks, lineCount, i);
      NoneRejected(blocks, lineCount, i + 1);
    }
  }

  /** Validation leaves a list alone exactly when the list is in sequence already. */
  lemma SequenceIsAccepted(blocks: seq<Block>, lineCount: nat, v: Validation)
    requires IsValidation(blocks, lineCount, v)
    ensures v == Validation(blocks, []) <==> InSequence(blocks, lineCount)
  {
    if InSequence(blocks, lineCount) {
      AllStand(blocks, lineCount, |blocks|);
      NoneRejected(blocks, lineCount, 0);
      var identity: seq<nat> := seq(|blocks|, k => k);
      assert Arrange(blocks, identity) == blocks;
      InOrderAlready(blocks, lineCount, identity);
    } else {
      AcceptedAreInSequence(blocks, lineCount, v);
    }
  }

  lemma InOrderAlready(blocks: seq<Block>, lineCount: nat, identity: seq<nat>)
    requires InSequence(blocks, lineCount) && |identity| == |blocks| && forall k :: 0 <= k < |blocks| ==>
               identity[k] == k
    ensures SortedByStart(blocks) == Arrange(blocks, identity)
  {
    var keys := ByBlockStart(blocks);
    forall a, b | 0 <= a < b < |identity| ensures Before(keys, identity[a], identity[b]) {
      assert WellProved(blocks[a], lineCount);
    }
    forall i: nat ensures i in identity <==> i < |blocks| {
      if i < |blocks| {
        assert identity[i] == i;
      }
    }
    StableOrderIsUnique(keys, StableOrder(keys), identity);
  }
}
