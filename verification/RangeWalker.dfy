/** The advancing walker over link and overlay ranges (`buildRangeWalker` of
    core/src/ansi-html.ts), proved to answer what a rescan of all ranges would. */
module RangeWalker {
  import opened Wrappers
  import opened Text
  import opened StableSort

  /** Columns `start` up to, not including, `end`. */
  datatype Range<T> = Range(start: int, end: int, tag: T)

  datatype Kind = SearchMatch | SearchActive

  type Link = Range<Text>

  type Overlay = Range<Kind>

  /** A range with its place in the input. */
  datatype Indexed<T> = Indexed(range: Range<T>, ord: nat)

  // ---- The rescan --------------------------------------------------------------------------------

  predicate Covers<T>(range: Range<T>, position: int) {
    range.start <= position < range.end
  }

  /** The first link of the list that covers the position. */
  function HrefByScan(links: seq<Link>, position: int): Option<Text> {
    if links == [] then None
    else if Covers(links[0], position) then Some(links[0].tag)
    else HrefByScan(links[1..], position)
  }

  predicate CoveredByKind(overlays: seq<Overlay>, position: int, kind: Kind) {
    exists i :: 0 <= i < |overlays| && Covers(overlays[i], position) && overlays[i].tag == kind
  }

  /** The active match wins over plain ones. */
  function OverlayByScan(overlays: seq<Overlay>, position: int): Option<Kind> {
    if CoveredByKind(overlays, position, SearchActive) then Some(SearchActive)
    else if CoveredByKind(overlays, position, SearchMatch) then Some(SearchMatch)
    else None
  }

  predicate IsEndpoint<T>(ranges: seq<Range<T>>, at: int) {
    exists i :: 0 <= i < |ranges| && (ranges[i].start == at || ranges[i].end == at)
  }

  /** Nothing starts or ends after `from` and before `to`. */
  ghost predicate NoEndpointBetween<T>(ranges: seq<Range<T>>, from: int, to: int) {
    forall at: int :: from < at < to ==> !IsEndpoint(ranges, at)
  }

  /** The next endpoint strictly after the position. */
  ghost predicate IsNextBoundary(links: seq<Link>, overlays: seq<Overlay>, position: int, boundary: Option<int>) {
    match boundary
    case None => forall at :: IsEndpoint(links, at) || IsEndpoint(overlays, at) ==> at <= position
    case Some(at) =>
      && position < at && (IsEndpoint(links, at) || IsEndpoint(overlays, at))
      && NoEndpointBetween(links, position, at) && NoEndpointBetween(overlays, position, at)
  }

  /** Between endpoints nothing changes: the same ranges cover every position. */
  lemma SameCover<T>(ranges: seq<Range<T>>, from: int, position: int, i: nat)
    requires from <= position && i < |ranges| && NoEndpointBetween(ranges, from, position + 1)
    ensures Covers(ranges[i], from) <==> Covers(ranges[i], position)
  {
    assert IsEndpoint(ranges, ranges[i].start) && IsEndpoint(ranges, ranges[i].end);
  }

  lemma {:induction false} SameHref(links: seq<Link>, from: int, position: int)
    requires from <= position && NoEndpointBetween(links, from, position + 1)
    ensures HrefByScan(links, from) == HrefByScan(links, position)
  {
    if links != [] {
      SameCover(links, from, position, 0);
      forall at: int | from < at < position + 1 ensures !IsEndpoint(links[1..], at) {
        assert !IsEndpoint(links, at);
        assert forall i :: 0 <= i < |links[1..]| ==> links[1..][i] == links[i + 1];
      }
      SameHref(links[1..], from, position);
    }
  }

  lemma SameOverlay(overlays: seq<Overlay>, from: int, position: int)
    requires from <= position && NoEndpointBetween(overlays, from, position + 1)
    ensures OverlayByScan(overlays, from) == OverlayByScan(overlays, position)
  {
    forall i: nat | i < |overlays| ensures Covers(overlays[i], from) <==> Covers(overlays[i], position) {
      SameCover(overlays, from, position, i);
    }
    forall kind ensures CoveredByKind(overlays, from, kind) <==> CoveredByKind(overlays, position, kind) {
    }
  }

  // ---- Ranges by their start ------------------------------------------------------------------------

  /** The same ranges, ordered by start. */
  ghost predicate IsByStart<T(!new)>(ranges: seq<Range<T>>, byStart: seq<Indexed<T>>) {
    && (forall x :: x in byStart <==> x.ord < |ranges| && ranges[x.ord] == x.range)
    && (forall a, b :: 0 <= a <= b < |byStart| ==> byStart[a].range.start <= byStart[b].range.start)
  }

  function ByStart<T(!new)>(ranges: seq<Range<T>>): (byStart: seq<Indexed<T>>)
    ensures IsByStart(ranges, byStart)
  {
    var keys := seq(|ranges|, i requires 0 <= i < |ranges| => Key(ranges[i].start, i));
    var order := StableOrder(keys);
    var byStart := seq(|order|, k requires 0 <= k < |order| => Indexed(ranges[order[k]], order[k]));
    ByStartHolds(ranges, keys, order, byStart);
    byStart
  }

  lemma ByStartHolds<T(!new)>(ranges: seq<Range<T>>, keys: seq<Key>, order: seq<nat>, byStart: seq<Indexed<T>>)
    requires |keys| == |ranges| && forall i: nat :: i < |ranges| ==> keys[i] == Key(ranges[i].start, i)
    requires IsStableOrder(keys, order) && |byStart| == |order|
    requires forall k :: 0 <= k < |order| ==> byStart[k] == Indexed(ranges[order[k]], order[k])
    ensures IsByStart(ranges, byStart)
  {
    forall x ensures x in byStart <==> x.ord < |ranges| && ranges[x.ord] == x.range {
      if x.ord < |ranges| && ranges[x.ord] == x.range {
        assert x.ord in order;
        var k :| 0 <= k < |order| && order[k] == x.ord;
        assert byStart[k] == x;
      }
    }
    forall a, b | 0 <= a < b < |byStart| ensures byStart[a].range.start <= byStart[b].range.start {
      assert Before(keys, order[a], order[b]);
    }
  }

  /** The ranges that cover the position, from their start on. */
  ghost predicate IsActive<T(!new)>(byStart: seq<Indexed<T>>, active: seq<Indexed<T>>, position: int) {
    forall x :: x in active <==> x in byStart && Covers(x.range, position)
  }

  /** The first `n` are the ranges that have started by the position. */
  ghost predicate StartedBy<T>(byStart: seq<Indexed<T>>, n: nat, position: int) {
    && n <= |byStart|
    && (forall k :: 0 <= k < n ==> byStart[k].range.start <= position)
    && (forall k :: n <= k < |byStart| ==> position < byStart[k].range.start)
  }

  /** Drop the ranges that have ended. */
  method DropEnded<T>(active: seq<Indexed<T>>, position: int) returns (kept: seq<Indexed<T>>)
    ensures forall x :: x in kept <==> x in active && position < x.range.end
  {
    kept := [];
    for r := 0 to |active|
      invariant forall x :: x in kept <==> x in active[..r] && position < x.range.end
    {
      assert active[..r + 1] == active[..r] + [active[r]];
      if active[r].range.end > position {
        kept := kept + [active[r]];
      }
    }
    assert active[..|active|] == active;
  }

  /** Take in the ranges that have started by now and not ended. */
  method AdmitStarted<T(!new)>(byStart: seq<Indexed<T>>, started: nat, active: seq<Indexed<T>>, ghost before: int,
      position: int)
    returns (more: nat, admitted: seq<Indexed<T>>)
    requires before <= position && StartedBy(byStart, started, before)
    requires forall a, b :: 0 <= a <= b < |byStart| ==> byStart[a].range.start <= byStart[b].range.start
    requires forall x :: x in active <==> x in byStart[..started] && position < x.range.end
    ensures StartedBy(byStart, more, position) && IsActive(byStart, admitted, position)
  {
    more, admitted := started, active;
    while more < |byStart| && byStart[more].range.start <= position
      invariant started <= more <= |byStart|
      invariant forall k :: 0 <= k < more ==> byStart[k].range.start <= position
      invariant forall x :: x in admitted <==> x in byStart[..more] && position < x.range.end
    {
      var range := byStart[more];
      assert byStart[..more + 1] == byStart[..more] + [range];
      if range.range.end > position {
        admitted := admitted + [range];
      }
      more := more + 1;
    }
    StartedCover(byStart, more, admitted, position);
  }

  lemma StartedCover<T(!new)>(byStart: seq<Indexed<T>>, n: nat, active: seq<Indexed<T>>, position: int)
    requires n <= |byStart|
    requires forall k :: 0 <= k < n ==> byStart[k].range.start <= position
    requires n == |byStart| || position < byStart[n].range.start
    requires forall a, b :: 0 <= a <= b < |byStart| ==> byStart[a].range.start <= byStart[b].range.start
    requires forall x :: x in active <==> x in byStart[..n] && position < x.range.end
    ensures StartedBy(byStart, n, position) && IsActive(byStart, active, position)
  {
    assert forall k :: n <= k < |byStart| ==> byStart[n].range.start <= byStart[k].range.start;
    forall x ensures x in active <==> x in byStart && Covers(x.range, position) {
      if x in byStart && Covers(x.range, position) {
        var k :| 0 <= k < |byStart| && byStart[k] == x;
        assert byStart[..n][k] == x;
      }
    }
  }

  // ---- Endpoints in order ---------------------------------------------------------------------------

  function SortedNumbers(values: seq<int>): (sorted: seq<int>)
    ensures forall v :: v in sorted <==> v in values
    ensures forall a, b :: 0 <= a <= b < |sorted| ==> sorted[a] <= sorted[b]
  {
    var keys := seq(|values|, i requires 0 <= i < |values| => Key(values[i], 0));
    var order := StableOrder(keys);
    var sorted := seq(|order|, k requires 0 <= k < |order| => values[order[k]]);
    assert forall v :: v in values ==> v in sorted by {
      forall i | 0 <= i < |values| ensures values[i] in sorted {
        assert i in order;
        var k :| 0 <= k < |order| && order[k] == i;
        assert sorted[k] == values[i];
      }
    }
    assert forall a, b :: 0 <= a < b < |sorted| ==> Before(keys, order[a], order[b]);
    sorted
  }

  method Endpoints<T>(byStart: seq<Indexed<T>>) returns (points: seq<int>)
    ensures forall at :: at in points <==> exists k ::
              0 <= k < |byStart| && (byStart[k].range.start == at || byStart[k].range.end == at)
  {
    points := [];
    for k := 0 to |byStart|
      invariant forall at :: at in points <==> exists j ::
                  0 <= j < k && (byStart[j].range.start == at || byStart[j].range.end == at)
    {
      points := points + [byStart[k].range.start, byStart[k].range.end];
    }
  }

  lemma EndpointsByStart<T(!new)>(ranges: seq<Range<T>>, byStart: seq<Indexed<T>>, at: int)
    requires IsByStart(ranges, byStart)
    ensures IsEndpoint(ranges, at) <==> exists k ::
              0 <= k < |byStart| && (byStart[k].range.start == at || byStart[k].range.end == at)
  {
    if IsEndpoint(ranges, at) {
      var i :| 0 <= i < |ranges| && (ranges[i].start == at || ranges[i].end == at);
      assert Indexed(ranges[i], i) in byStart;
    }
    if exists k :: 0 <= k < |byStart| && (byStart[k].range.start == at || byStart[k].range.end == at) {
      var k :| 0 <= k < |byStart| && (byStart[k].range.start == at || byStart[k].range.end == at);
      assert byStart[k] in byStart;
    }
  }

  ghost predicate AreBounds(links: seq<Link>, overlays: seq<Overlay>, bounds: seq<int>) {
    && (forall at :: at in bounds <==> IsEndpoint(links, at) || IsEndpoint(overlays, at))
    && (forall a, b :: 0 <= a < b < |bounds| ==> bounds[a] < bounds[b])
  }

  /** A sorted list without its repetitions. */
  method Unique(values: seq<int>) returns (bounds: seq<int>)
    requires forall a, b :: 0 <= a <= b < |values| ==> values[a] <= values[b]
    ensures forall v :: v in bounds <==> v in values
    ensures forall a, b :: 0 <= a < b < |bounds| ==> bounds[a] < bounds[b]
  {
    bounds := [];
    for i := 0 to |values|
      invariant forall v :: v in bounds <==> v in values[..i]
      invariant forall a, b :: 0 <= a < b < |bounds| ==> bounds[a] < bounds[b]
      invariant |bounds| > 0 ==> i > 0 && bounds[|bounds| - 1] == values[i - 1]
      invariant |bounds| == 0 ==> i == 0
    {
      assert values[..i + 1] == values[..i] + [values[i]];
      if |bounds| == 0 || bounds[|bounds| - 1] != values[i] {
        bounds := bounds + [values[i]];
      }
    }
    assert values[..|values|] == values;
  }

  // ---- The walker -----------------------------------------------------------------------------------

  class Walker {
    const links: seq<Link>
    const overlays: seq<Overlay>
    const linksByStart: seq<Indexed<Text>>
    const overlaysByStart: seq<Indexed<Kind>>
    const bounds: seq<int>
    var boundIdx: nat
    var linkStartIdx: nat
    var overlayStartIdx: nat
    var activeLinks: seq<Indexed<Text>>
    var activeOverlays: seq<Indexed<Kind>>
    var syncedAt: int

    ghost predicate Valid()
      reads this
    {
      && IsByStart(links, linksByStart) && IsByStart(overlays, overlaysByStart)
      && AreBounds(links, overlays, bounds)
      && boundIdx <= |bounds|
      && StartedBy(linksByStart, linkStartIdx, syncedAt) && IsActive(linksByStart, activeLinks, syncedAt)
      && StartedBy(overlaysByStart, overlayStartIdx, syncedAt) && IsActive(overlaysByStart, activeOverlays, syncedAt)
    }

    /** No bound that was passed lies after the position. */
    ghost predicate PassedBy(position: int)
      reads this
      requires boundIdx <= |bounds|
    {
      forall k :: 0 <= k < boundIdx ==> bounds[k] <= position
    }

    constructor (links: seq<Link>, overlays: seq<Overlay>)
      requires forall i :: 0 <= i < |links| ==> links[i].start >= 0
      requires forall i :: 0 <= i < |overlays| ==> overlays[i].start >= 0
      ensures Valid() && this.links == links && this.overlays == overlays
      ensures syncedAt == -1 && PassedBy(-1)
    {
      this.links, this.overlays := links, overlays;
      var linksByStart := ByStart(links);
      var overlaysByStart := ByStart(overlays);
      var linkPoints := Endpoints(linksByStart);
      var overlayPoints := Endpoints(overlaysByStart);
      forall at ensures IsEndpoint(links, at) <==> at in linkPoints {
        EndpointsByStart(links, linksByStart, at);
      }
      forall at ensures IsEndpoint(overlays, at) <==> at in overlayPoints {
        EndpointsByStart(overlays, overlaysByStart, at);
      }
      var bounds := Unique(SortedNumbers(linkPoints + overlayPoints));
      assert forall k :: 0 <= k < |linksByStart| ==> linksByStart[k] in linksByStart;
      assert forall k :: 0 <= k < |overlaysByStart| ==> overlaysByStart[k] in overlaysByStart;
      this.linksByStart, this.overlaysByStart, this.bounds := linksByStart, overlaysByStart, bounds;
      boundIdx, linkStartIdx, overlayStartIdx := 0, 0, 0;
      activeLinks, activeOverlays, syncedAt := [], [], -1;
    }

    method SyncActive(position: int)
      requires Valid() && syncedAt <= position
      modifies this`linkStartIdx, this`overlayStartIdx, this`activeLinks, this`activeOverlays, this`syncedAt
      ensures Valid() && syncedAt == position
    {
      if position == syncedAt {
        return;
      }
      hide AreBounds;
      var keptLinks := DropEnded(activeLinks, position);
      var keptOverlays := DropEnded(activeOverlays, position);
      KeptAreStarted(linksByStart, linkStartIdx, activeLinks, keptLinks, syncedAt, position);
      KeptAreStarted(overlaysByStart, overlayStartIdx, activeOverlays, keptOverlays, syncedAt, position);
      hide IsActive, StartedBy;
      linkStartIdx, activeLinks := AdmitStarted(linksByStart, linkStartIdx, keptLinks, syncedAt, position);
      overlayStartIdx, activeOverlays := AdmitStarted(overlaysByStart, overlayStartIdx, keptOverlays, syncedAt,
          position);
      syncedAt := position;
    }

    /** The next endpoint after the position, for positions that only advance. */
    method NextBoundary(position: int) returns (boundary: Option<int>)
      requires Valid() && PassedBy(position)
      modifies this`boundIdx
      ensures Valid() && PassedBy(position)
      ensures IsNextBoundary(links, overlays, position, boundary)
    {
      while boundIdx < |bounds| && bounds[boundIdx] <= position
        invariant boundIdx <= |bounds| && PassedBy(position)
      {
        boundIdx := boundIdx + 1;
      }
      boundary := if boundIdx < |bounds| then Some(bounds[boundIdx]) else None;
      FirstUnpassed(links, overlays, bounds, boundIdx, position);
    }

    /** The link a rescan would find. */
    method HrefAt(position: int) returns (href: Option<Text>)
      requires Valid() && syncedAt <= position
      modifies this`linkStartIdx, this`overlayStartIdx, this`activeLinks, this`activeOverlays, this`syncedAt
      ensures Valid() && syncedAt == position
      ensures href == HrefByScan(links, position)
    {
      SyncActive(position);
      if |activeLinks| == 0 {
        NothingActive(links, linksByStart, activeLinks, position);
        NoLinkCovers(links, position);
        return None;
      }
      var best := activeLinks[0];
      for i := 1 to |activeLinks|
        invariant best in activeLinks
        invariant forall j :: 0 <= j < i ==> best.ord <= activeLinks[j].ord
      {
        if activeLinks[i].ord < best.ord {
          best := activeLinks[i];
        }
      }
      LowestCovering(links, linksByStart, activeLinks, best, position);
      return Some(best.range.tag);
    }

    /** The overlay a rescan would find. */
    method OverlayAt(position: int) returns (overlay: Option<Kind>)
      requires Valid() && syncedAt <= position
      modifies this`linkStartIdx, this`overlayStartIdx, this`activeLinks, this`activeOverlays, this`syncedAt
      ensures Valid() && syncedAt == position
      ensures overlay == OverlayByScan(overlays, position)
    {
      SyncActive(position);
      ActiveKinds(overlays, overlaysByStart, activeOverlays, position, SearchActive);
      ActiveKinds(overlays, overlaysByStart, activeOverlays, position, SearchMatch);
      var hasMatch := false;
      for i := 0 to |activeOverlays|
        invariant forall j :: 0 <= j < i ==> activeOverlays[j].range.tag != SearchActive
        invariant hasMatch <==> exists j :: 0 <= j < i && activeOverlays[j].range.tag == SearchMatch
      {
        var kind := activeOverlays[i].range.tag;
        if kind == SearchActive {
          return Some(SearchActive);
        }
        if kind == SearchMatch {
          hasMatch := true;
        }
      }
      return if hasMatch then Some(SearchMatch) else None;
    }
  }

  // ---- Why the walker is right ------------------------------------------------------------------------

  lemma KeptAreStarted<T(!new)>(byStart: seq<Indexed<T>>, started: nat, active: seq<Indexed<T>>,
      kept: seq<Indexed<T>>, before: int, position: int)
    requires before <= position && StartedBy(byStart, started, before) && IsActive(byStart, active, before)
    requires forall x :: x in kept <==> x in active && position < x.range.end
    ensures forall x :: x in kept <==> x in byStart[..started] && position < x.range.end
  {
    forall x ensures x in byStart[..started] <==> x in byStart && x.range.start <= before {
      if x in byStart && x.range.start <= before {
        var k :| 0 <= k < |byStart| && byStart[k] == x;
        assert byStart[..started][k] == x;
      }
    }
  }

  lemma FirstUnpassed(links: seq<Link>, overlays: seq<Overlay>, bounds: seq<int>, n: nat, position: int)
    requires AreBounds(links, overlays, bounds) && n <= |bounds|
    requires forall k :: 0 <= k < n ==> bounds[k] <= position
    requires n == |bounds| || position < bounds[n]
    ensures IsNextBoundary(links, overlays, position, if n < |bounds| then Some(bounds[n]) else None)
  {
    if n < |bounds| {
      assert bounds[n] in bounds;
      forall at: int | position < at < bounds[n] ensures at !in bounds {
        assert forall k :: n < k < |bounds| ==> bounds[n] < bounds[k];
      }
    }
  }

  lemma NothingActive<T(!new)>(ranges: seq<Range<T>>, byStart: seq<Indexed<T>>, active: seq<Indexed<T>>, position: int)
    requires IsByStart(ranges, byStart) && IsActive(byStart, active, position) && active == []
    ensures forall i :: 0 <= i < |ranges| ==> !Covers(ranges[i], position)
  {
    forall i: nat | i < |ranges| ensures !Covers(ranges[i], position) {
      assert Indexed(ranges[i], i) in byStart;
      assert Indexed(ranges[i], i) !in active;
    }
  }

  lemma {:induction false} NoLinkCovers(links: seq<Link>, position: int)
    requires forall i :: 0 <= i < |links| ==> !Covers(links[i], position)
    ensures HrefByScan(links, position).None?
  {
    if links != [] {
      NoLinkCovers(links[1..], position);
    }
  }

  lemma {:induction false} FirstCoveringLink(links: seq<Link>, i: nat, position: int)
    requires i < |links| && Covers(links[i], position)
    requires forall k :: 0 <= k < i ==> !Covers(links[k], position)
    ensures HrefByScan(links, position) == Some(links[i].tag)
  {
    if i > 0 {
      assert forall k :: 0 <= k < i - 1 ==> links[1..][k] == links[k + 1];
      FirstCoveringLink(links[1..], i - 1, position);
    }
  }

  lemma LowestCovering(links: seq<Link>, byStart: seq<Indexed<Text>>, active: seq<Indexed<Text>>,
      best: Indexed<Text>, position: int)
    requires IsByStart(links, byStart) && IsActive(byStart, active, position)
    requires best in active && forall j :: 0 <= j < |active| ==> best.ord <= active[j].ord
    ensures HrefByScan(links, position) == Some(best.range.tag)
  {
    forall k: nat | k < best.ord ensures !Covers(links[k], position) {
      assert Indexed(links[k], k) in byStart;
      assert Indexed(links[k], k) !in active;
    }
    FirstCoveringLink(links, best.ord, position);
  }

  lemma ActiveKinds(overlays: seq<Overlay>, byStart: seq<Indexed<Kind>>, active: seq<Indexed<Kind>>, position: int,
      kind: Kind)
    requires IsByStart(overlays, byStart) && IsActive(byStart, active, position)
    ensures CoveredByKind(overlays, position, kind) <==> exists j :: 0 <= j < |active| && active[j].range.tag == kind
  {
    if CoveredByKind(overlays, position, kind) {
      var i :| 0 <= i < |overlays| && Covers(overlays[i], position) && overlays[i].tag == kind;
      assert Indexed(overlays[i], i) in byStart;
      assert Indexed(overlays[i], i) in active;
    }
    if exists j :: 0 <= j < |active| && active[j].range.tag == kind {
      var j :| 0 <= j < |active| && active[j].range.tag == kind;
      assert active[j] in active;
      assert active[j] in byStart;
    }
  }
}
