/** Rendering one terminal row (`lineToHtml` of core/src/ansi-html.ts): the escape scanner and
    the splitting of visible text into linked and highlighted segments. Tags and styles are
    left out: a segment says its text, link, highlight and paint. */
module AnsiHtml {
  import opened Wrappers
  import opened Text
  import opened TerminalControls
  import opened RangeWalker
  import opened Sequences

  const SEMICOLON: Unit := 0x3b
  const EIGHT: Unit := 0x38

  /** Paint as SGR parameters leave it, and the link an OSC 8 string opened. */
  datatype SgrState<S> = SgrState(paint: S, osc8Href: Option<Text>)

  /** Taken from outside: what SGR parameters do, and which links are safe. */
  datatype Env<!S> = Env(applySgr: (Text, S) -> S, safe: Text -> bool)

  /** One piece of output. */
  datatype Segment<S> = Segment(text: Text, href: Option<Text>, overlay: Option<Kind>, style: SgrState<S>)

  /** One code unit of output and how it is shown. */
  datatype Cell<S> = Cell(glyph: Unit, href: Option<Text>, overlay: Option<Kind>, style: SgrState<S>)

  function CellsOf<S>(segment: Segment<S>): (cells: seq<Cell<S>>)
    ensures |cells| == |segment.text|
  {
    seq(|segment.text|, i requires 0 <= i < |segment.text| =>
        Cell(segment.text[i], segment.href, segment.overlay, segment.style))
  }

  function Flatten<S>(segments: seq<Segment<S>>): seq<Cell<S>> {
    if segments == [] then [] else Flatten(segments[..|segments| - 1]) + CellsOf(segments[|segments| - 1])
  }

  function Glyphs<S>(cells: seq<Cell<S>>): (text: Text)
    ensures |text| == |cells|
  {
    seq(|cells|, i requires 0 <= i < |cells| => cells[i].glyph)
  }

  // ---- How each unit should be shown ----------------------------------------------------------------

  predicate IsSafeHref<S>(env: Env<S>, raw: Text) {
    raw != [] && env.safe(raw)
  }

  /** The open OSC 8 link, if it is safe; it overrides the links of the row. */
  function ExplicitHref<S>(env: Env<S>, st: SgrState<S>): Option<Text> {
    if st.osc8Href.Some? && IsSafeHref(env, st.osc8Href.value) then st.osc8Href else None
  }

  /** Everything that decides how the units of one text are shown. */
  datatype Setting<S> = Setting(column: nat, links: seq<Link>, overlays: seq<Overlay>, explicit: Option<Text>,
      style: SgrState<S>)

  /** The link at an offset of the text; a pair whose first half has none takes its second half's. */
  function HrefOf<S>(text: Text, setting: Setting<S>, at: nat): Option<Text> {
    if setting.explicit.Some? then setting.explicit
    else
      var here := HrefByScan(setting.links, setting.column + at);
      if here.None? && IsSurrogatePairAt(text, at) then HrefByScan(setting.links, setting.column + at + 1) else here
  }

  function OverlayOf<S>(text: Text, setting: Setting<S>, at: nat): Option<Kind> {
    var here := OverlayByScan(setting.overlays, setting.column + at);
    if here.None? && setting.explicit.None? && IsSurrogatePairAt(text, at)
    then OverlayByScan(setting.overlays, setting.column + at + 1) else here
  }

  /** Where the code point of a unit starts. */
  function LeadOf(text: Text, i: nat): (lead: nat)
    ensures lead <= i
  {
    if IsSurrogatePairAt(text, i - 1) then i - 1 else i
  }

  /** A unit is shown as its code point is: both halves of a pair alike. */
  function CellAt<S>(text: Text, setting: Setting<S>, i: nat): Cell<S>
    requires i < |text|
  {
    Cell(text[i], HrefOf(text, setting, LeadOf(text, i)), OverlayOf(text, setting, LeadOf(text, i)), setting.style)
  }

  function Cells<S>(text: Text, setting: Setting<S>, n: nat): (cells: seq<Cell<S>>)
    requires n <= |text|
    ensures |cells| == n
    ensures forall i: nat :: i < n ==> cells[i] == CellAt(text, setting, i)
  {
    seq(n, i requires 0 <= i < n => CellAt(text, setting, i))
  }

  // ---- One segment ----------------------------------------------------------------------------------

  /** How long the segment at an offset is: up to the next endpoint, but never through a pair. */
  function SegmentLength(text: Text, offset: nat, absolute: int, boundary: Option<int>): (count: nat)
    requires offset < |text| && (boundary.Some? ==> absolute < boundary.value)
    ensures 0 < count && offset + count <= |text|
    ensures !IsSurrogatePairAt(text, offset + count - 1)
    ensures boundary.Some? ==> count <= boundary.value - absolute || (count == 2 && IsSurrogatePairAt(text, offset))
    ensures IsSurrogatePairAt(text, offset) ==> count >= 2
  {
    var take := if boundary.None? || |text| - offset < boundary.value - absolute then |text| - offset
        else boundary.value - absolute;
    if offset + take < |text| && IsSurrogatePairAt(text, offset + take - 1) then
      if take > 1 then take - 1 else 2
    else
      take
  }

  ghost predicate SegmentBoundary<S>(setting: Setting<S>, offset: nat, boundary: Option<int>) {
    IsNextBoundary(setting.links, setting.overlays, setting.column + offset, boundary)
  }

  /** No endpoint lies behind the segment's start and before any of its units, unless the
      segment is just one pair. */
  lemma NothingChangesWithin<S>(text: Text, setting: Setting<S>, offset: nat, boundary: Option<int>, i: nat)
    requires offset < |text| && SegmentBoundary(setting, offset, boundary)
    requires offset <= i && (boundary.Some? ==> setting.column + i < boundary.value)
    ensures HrefByScan(setting.links, setting.column + offset) == HrefByScan(setting.links, setting.column + i)
    ensures OverlayByScan(setting.overlays, setting.column + offset) ==
            OverlayByScan(setting.overlays, setting.column + i)
  {
    SameHref(setting.links, setting.column + offset, setting.column + i);
    SameOverlay(setting.overlays, setting.column + offset, setting.column + i);
  }

  /** Every unit of a segment is shown as the segment's first code point is. */
  lemma SegmentIsUniform<S>(text: Text, setting: Setting<S>, offset: nat, boundary: Option<int>, i: nat)
    requires offset < |text| && Aligned(text, offset) && SegmentBoundary(setting, offset, boundary)
    requires offset <= i < offset + SegmentLength(text, offset, setting.column + offset, boundary)
    ensures CellAt(text, setting, i) == Cell(text[i], HrefOf(text, setting, offset),
            OverlayOf(text, setting, offset), setting.style)
  {
    var count := SegmentLength(text, offset, setting.column + offset, boundary);
    var lead := LeadOf(text, i);
    hide IsNextBoundary, HrefByScan, OverlayByScan;
    if lead > offset {
      NothingChangesWithin(text, setting, offset, boundary, lead);
      if IsSurrogatePairAt(text, lead) {
        NothingChangesWithin(text, setting, offset, boundary, lead + 1);
      }
      if IsSurrogatePairAt(text, offset) {
        NothingChangesWithin(text, setting, offset, boundary, offset + 1);
      }
    }
  }

  // ---- Splitting a text into segments -----------------------------------------------------------------

  /** No segment ends in the first half of a pair that the next one goes on with. */
  ghost predicate PairsStayWhole<S>(segments: seq<Segment<S>>) {
    && (forall k :: 0 <= k < |segments| ==> |segments[k].text| > 0)
    && (forall k :: 0 < k < |segments| ==>
          !(IsHighSurrogate(segments[k - 1].text[|segments[k - 1].text| - 1]) && IsLowSurrogate(segments[k].text[0])))
  }

  /** The walker, if there is one, is ready for positions from `column` on. */
  ghost predicate Ready(walker: Walker?, links: seq<Link>, overlays: seq<Overlay>, column: int)
    reads walker
  {
    if walker == null then links == [] && overlays == []
    else walker.Valid() && walker.links == links && walker.overlays == overlays
         && walker.syncedAt <= column && walker.PassedBy(column)
  }

  method BoundaryAfter(walker: Walker?, links: seq<Link>, overlays: seq<Overlay>, position: int)
    returns (boundary: Option<int>)
    requires Ready(walker, links, overlays, position)
    modifies walker
    ensures Ready(walker, links, overlays, position) && IsNextBoundary(links, overlays, position, boundary)
  {
    if walker == null {
      return None;
    }
    boundary := walker.NextBoundary(position);
  }

  /** The link and highlight of the segment that starts at an offset. */
  method Attribution<S>(walker: Walker?, text: Text, setting: Setting<S>, offset: nat, count: nat)
    returns (href: Option<Text>, overlay: Option<Kind>)
    requires offset < |text| && (IsSurrogatePairAt(text, offset) ==> count >= 2) && count > 0
    requires Ready(walker, setting.links, setting.overlays, setting.column + offset)
    modifies walker
    ensures Ready(walker, setting.links, setting.overlays, setting.column + offset + count)
    ensures href == HrefOf(text, setting, offset) && overlay == OverlayOf(text, setting, offset)
  {
    var absolute := setting.column + offset;
    href, overlay := setting.explicit, None;
    if walker == null {
      assert forall position :: OverlayByScan([], position).None?;
      return;
    }
    if href.None? {
      href := walker.HrefAt(absolute);
    }
    overlay := walker.OverlayAt(absolute);
    if setting.explicit.None? && count >= 2 && IsSurrogatePairAt(text, offset) {
      if href.None? {
        href := walker.HrefAt(absolute + 1);
      }
      if overlay.None? {
        overlay := walker.OverlayAt(absolute + 1);
      }
    }
  }

  lemma FlattenMore<S>(segments: seq<Segment<S>>, segment: Segment<S>)
    ensures Flatten(segments + [segment]) == Flatten(segments) + CellsOf(segment)
  {
    assert (segments + [segment])[..|segments|] == segments;
  }

  /** One more segment shows its units as they should be. */
  lemma SegmentContinues<S>(text: Text, setting: Setting<S>, offset: nat, boundary: Option<int>, segment: Segment<S>)
    requires offset < |text| && Aligned(text, offset) && SegmentBoundary(setting, offset, boundary)
    requires var count := SegmentLength(text, offset, setting.column + offset, boundary);
             segment == Segment(text[offset..offset + count], HrefOf(text, setting, offset),
                 OverlayOf(text, setting, offset), setting.style)
    ensures Cells(text, setting, offset) + CellsOf(segment) == Cells(text, setting, offset + |segment.text|)
  {
    var count := |segment.text|;
    forall i: nat | offset <= i < offset + count ensures CellsOf(segment)[i - offset] == CellAt(text, setting, i) {
      SegmentIsUniform(text, setting, offset, boundary, i);
    }
    hide CellAt, HrefOf, OverlayOf, SegmentLength, IsNextBoundary;
    assert forall i: nat :: i < offset ==> Cells(text, setting, offset)[i] == CellAt(text, setting, i);
  }

  /** The segment that starts at an offset. */
  method NextSegment<S>(walker: Walker?, text: Text, setting: Setting<S>, offset: nat) returns (segment: Segment<S>)
    requires offset < |text| && Aligned(text, offset)
    requires Ready(walker, setting.links, setting.overlays, setting.column + offset)
    modifies walker
    ensures 0 < |segment.text| <= |text| - offset && segment.text == text[offset..offset + |segment.text|]
    ensures Aligned(text, offset + |segment.text|)
    ensures Ready(walker, setting.links, setting.overlays, setting.column + offset + |segment.text|)
    ensures Cells(text, setting, offset) + CellsOf(segment) == Cells(text, setting, offset + |segment.text|)
  {
    hide IsNextBoundary, HrefOf, OverlayOf, SegmentLength, Cells, CellsOf;
    var absolute := setting.column + offset;
    var boundary := BoundaryAfter(walker, setting.links, setting.overlays, absolute);
    BoundaryIsAfter(setting.links, setting.overlays, absolute, boundary);
    var count := SegmentLength(text, offset, absolute, boundary);
    var href, overlay := Attribution(walker, text, setting, offset, count);
    segment := Segment(text[offset..offset + count], href, overlay, setting.style);
    SegmentContinues(text, setting, offset, boundary, segment);
  }

  /** The segments so far end where the text is cut at `offset`. */
  ghost predicate CutAt<S>(segments: seq<Segment<S>>, text: Text, offset: nat)
    requires offset <= |text|
  {
    && PairsStayWhole(segments)
    && (|segments| > 0 ==>
          offset > 0 && segments[|segments| - 1].text[|segments[|segments| - 1].text| - 1] == text[offset - 1])
  }

  lemma CutFurther<S>(segments: seq<Segment<S>>, text: Text, offset: nat, segment: Segment<S>)
    requires offset < |text| && Aligned(text, offset) && CutAt(segments, text, offset)
    requires 0 < |segment.text| <= |text| - offset && segment.text == text[offset..offset + |segment.text|]
    ensures CutAt(segments + [segment], text, offset + |segment.text|)
  {
  }

  /** The segments of a text: together they show every unit as its code point should be, and no
      pair is cut in two. */
  method AppendText<S>(walker: Walker?, text: Text, setting: Setting<S>) returns (segments: seq<Segment<S>>)
    requires Ready(walker, setting.links, setting.overlays, setting.column)
    modifies walker
    ensures Ready(walker, setting.links, setting.overlays, setting.column + |text|)
    ensures Flatten(segments) == Cells(text, setting, |text|)
    ensures PairsStayWhole(segments)
  {
    segments := [];
    if setting.explicit.None? && walker == null {
      if |text| > 0 {
        var whole := Segment(text, None, None, setting.style);
        PlainCells(text, setting);
        segments := [whole];
        FlattenOne(whole);
      }
      return;
    }
    var offset: nat := 0;
    hide Cells, CellsOf, Ready;
    NothingShown(text, setting);
    while offset < |text|
      invariant offset <= |text| && Aligned(text, offset)
      invariant Ready(walker, setting.links, setting.overlays, setting.column + offset)
      invariant Flatten(segments) == Cells(text, setting, offset)
      invariant CutAt(segments, text, offset)
    {
      hide Flatten, CutAt;
      var segment := NextSegment(walker, text, setting, offset);
      FlattenMore(segments, segment);
      CutFurther(segments, text, offset, segment);
      segments, offset := segments + [segment], offset + |segment.text|;
    }
  }

  lemma FlattenOne<S>(segment: Segment<S>)
    ensures Flatten([segment]) == CellsOf(segment)
  {
    FlattenMore([], segment);
    assert [] + [segment] == [segment];
  }

  lemma NothingShown<S>(text: Text, setting: Setting<S>)
    ensures Cells(text, setting, 0) == []
  {
  }

  lemma BoundaryIsAfter(links: seq<Link>, overlays: seq<Overlay>, position: int, boundary: Option<int>)
    requires IsNextBoundary(links, overlays, position, boundary)
    ensures boundary.Some? ==> position < boundary.value
  {
  }

  lemma PlainCells<S>(text: Text, setting: Setting<S>)
    requires setting.explicit.None? && setting.links == [] && setting.overlays == []
    ensures CellsOf(Segment(text, None, None, setting.style)) == Cells(text, setting, |text|)
  {
    assert forall position :: OverlayByScan([], position).None?;
  }

  // ---- Controls ---------------------------------------------------------------------------------------

  function IndexOf(text: Text, u: Unit, from: nat): (index: nat)
    requires from <= |text|
    ensures from <= index <= |text|
    ensures index < |text| ==> text[index] == u
    ensures forall k :: from <= k < index ==> text[k] != u
    decreases |text| - from
  {
    if from == |text| || text[from] == u then from else IndexOf(text, u, from + 1)
  }

  predicate IsOsc8(payload: Text) {
    |payload| >= 2 && payload[0] == EIGHT && payload[1] == SEMICOLON
  }

  /** An OSC 8 string opens a safe link; a malformed or unsafe one closes what was open. */
  function ApplyOscPayload<S>(env: Env<S>, payload: Text, st: SgrState<S>): SgrState<S> {
    if !IsOsc8(payload) then st
    else
      var second := IndexOf(payload, SEMICOLON, 2);
      if second == |payload| then st.(osc8Href := None)
      else st.(osc8Href := if IsSafeHref(env, payload[second + 1..]) then Some(payload[second + 1..]) else None)
  }

  /** What the control at `at` does to the state. */
  function AfterEffect<S>(env: Env<S>, line: Text, at: nat, st: SgrState<S>): SgrState<S>
    requires at < |line| && line[at] == ESC
  {
    if at + 1 == |line| then st
    else if line[at + 1] == LEFT_BRACKET then
      var stop := CsiStop(line, at + 2);
      if stop < |line| && line[stop] == LETTER_M then st.(paint := env.applySgr(line[at + 2..stop], st.paint)) else st
    else if line[at + 1] == RIGHT_BRACKET then
      var stop := OscStop(line, at + 2);
      if stop < |line| then ApplyOscPayload(env, line[at + 2..stop], st)
      else if IsOsc8(line[at + 2..]) then st.(osc8Href := None)
      else st
    else st
  }

  /** The branches of the renderer for one control. */
  method ReadControl<S>(env: Env<S>, line: Text, cursor: nat, st: SgrState<S>) returns (next: nat, after: SgrState<S>)
    requires cursor < |line| && line[cursor] == ESC
    ensures next == AfterControl(line, cursor, Renderer) && after == AfterEffect(env, line, cursor, st)
  {
    after := st;
    if cursor + 1 >= |line| {
      return |line|, st;
    }
    var second := line[cursor + 1];
    if second == LEFT_BRACKET {
      var end := cursor + 2;
      while end < |line| && line[end] != ESC && !IsCsiFinal(line[end])
        invariant cursor + 2 <= end <= |line|
        invariant CsiStop(line, end) == CsiStop(line, cursor + 2)
      {
        end := end + 1;
      }
      if end >= |line| || line[end] == ESC {
        return end, st;
      }
      if line[end] == LETTER_M {
        after := st.(paint := env.applySgr(line[cursor + 2..end], st.paint));
      }
      return end + 1, after;
    }
    if second == RIGHT_BRACKET {
      var end := cursor + 2;
      while end < |line| && !OscTerminatorAt(line, end)
        invariant cursor + 2 <= end <= |line|
        invariant OscStop(line, end) == OscStop(line, cursor + 2)
      {
        end := end + 1;
      }
      if end == |line| {
        if IsOsc8(line[cursor + 2..]) {
          after := st.(osc8Href := None);
        }
        return end, after;
      }
      return if line[end] == BEL then end + 1 else end + 2, ApplyOscPayload(env, line[cursor + 2..end], st);
    }
    if second in CHARSET {
      var third := cursor + 2;
      if third >= |line| || line[third] == ESC || IsSurrogatePairAt(line, third) {
        return third, st;
      }
      return cursor + 3, st;
    }
    if line[cursor + 1] == ESC || IsSurrogatePairAt(line, cursor + 1) {
      return cursor + 1, st;
    }
    return cursor + 2, st;
  }

  // ---- The whole row ----------------------------------------------------------------------------------

  /** How the row is shown from `at` on: its visible units in the paint of the controls before
      them, by the columns they stand in. */
  function RowCells<S>(env: Env<S>, line: Text, at: nat, column: nat, st: SgrState<S>, links: seq<Link>,
      overlays: seq<Overlay>): seq<Cell<S>>
    requires at <= |line|
    decreases |line| - at
  {
    if at == |line| then []
    else if line[at] == ESC then
      RowCells(env, line, AfterControl(line, at, Renderer), column, AfterEffect(env, line, at, st), links, overlays)
    else
      var chunk := line[at..IndexOf(line, ESC, at)];
      Cells(chunk, Setting(column, links, overlays, ExplicitHref(env, st), st), |chunk|)
      + RowCells(env, line, at + |chunk|, column + |chunk|, st, links, overlays)
  }

  function StateAfter<S>(env: Env<S>, line: Text, at: nat, st: SgrState<S>): SgrState<S>
    requires at <= |line|
    decreases |line| - at
  {
    if at == |line| then st
    else if line[at] == ESC then StateAfter(env, line, AfterControl(line, at, Renderer), AfterEffect(env, line, at, st))
    else StateAfter(env, line, at + 1, st)
  }

  predicate IsUsableRange<T>(range: Range<T>) {
    && IsSafeInteger(range.start) && IsSafeInteger(range.end)
    && 0 <= range.start < range.end
  }

  function LinkIsUsable<S>(env: Env<S>): (wanted: Link -> bool)
    ensures forall link :: wanted(link) <==> IsUsableRange(link) && IsSafeHref(env, link.tag)
  {
    link => IsUsableRange(link) && IsSafeHref(env, link.tag)
  }

  function OverlayIsUsable(): (wanted: Overlay -> bool)
    ensures forall overlay :: wanted(overlay) <==> IsUsableRange(overlay)
  {
    overlay => IsUsableRange(overlay)
  }

  /** The usable links, in the order they are given: the first one that covers a column counts. */
  function UsableLinks<S>(env: Env<S>, links: seq<Link>): (usable: seq<Link>)
    ensures forall link :: link in usable <==> link in links && IsUsableRange(link) && IsSafeHref(env, link.tag)
  {
    KeepMembers(links, LinkIsUsable(env));
    Keep(links, LinkIsUsable(env))
  }

  function UsableOverlays(overlays: seq<Overlay>): (usable: seq<Overlay>)
    ensures forall overlay :: overlay in usable <==> overlay in overlays && IsUsableRange(overlay)
  {
    KeepMembers(overlays, OverlayIsUsable());
    Keep(overlays, OverlayIsUsable())
  }

  /** What is filtered are the ranges of whole columns that are not empty, links only with a safe
      address, and it keeps its order. */
  lemma UsableKeepOrder<S>(env: Env<S>, links: seq<Link>, moreLinks: seq<Link>, overlays: seq<Overlay>,
      moreOverlays: seq<Overlay>)
    ensures UsableLinks(env, links + moreLinks) == UsableLinks(env, links) + UsableLinks(env, moreLinks)
    ensures UsableOverlays(overlays + moreOverlays) == UsableOverlays(overlays) + UsableOverlays(moreOverlays)
    ensures forall link: Link :: link in UsableLinks(env, links) <==>
              link in links && 0 <= link.start < link.end <= MAX_SAFE_INTEGER && IsSafeHref(env, link.tag)
    ensures forall overlay: Overlay :: overlay in UsableOverlays(overlays) <==>
              overlay in overlays && 0 <= overlay.start < overlay.end <= MAX_SAFE_INTEGER
  {
    KeepJoins(links, moreLinks, LinkIsUsable(env));
    KeepJoins(overlays, moreOverlays, OverlayIsUsable());
  }

  method FilterRanges<S>(env: Env<S>, links: seq<Link>, overlays: seq<Overlay>)
    returns (usableLinks: seq<Link>, usableOverlays: seq<Overlay>)
    ensures usableLinks == UsableLinks(env, links) && usableOverlays == UsableOverlays(overlays)
  {
    usableLinks, usableOverlays := [], [];
    for i := 0 to |links|
      invariant usableLinks == Keep(links[..i], LinkIsUsable(env))
    {
      KeepOneMore(links, i, LinkIsUsable(env));
      if IsUsableRange(links[i]) && IsSafeHref(env, links[i].tag) {
        usableLinks := usableLinks + [links[i]];
      }
    }
    for i := 0 to |overlays|
      invariant usableOverlays == Keep(overlays[..i], OverlayIsUsable())
    {
      KeepOneMore(overlays, i, OverlayIsUsable());
      if IsUsableRange(overlays[i]) {
        usableOverlays := usableOverlays + [overlays[i]];
      }
    }
    assert links[..|links|] == links && overlays[..|overlays|] == overlays;
  }

  /** Text without ESC is one chunk: it is shown in the present state, and the rest after it. */
  lemma ChunkThenRest<S>(env: Env<S>, line: Text, at: nat, stop: nat, column: nat, st: SgrState<S>, links: seq<Link>,
      overlays: seq<Overlay>)
    requires at <= stop <= |line| && (forall k :: at <= k < stop ==> line[k] != ESC)
             && (stop == |line| || line[stop] == ESC)
    ensures RowCells(env, line, at, column, st, links, overlays) ==
            Cells(line[at..stop], Setting(column, links, overlays, ExplicitHref(env, st), st), stop - at)
            + RowCells(env, line, stop, column + (stop - at), st, links, overlays)
  {
    if at < stop {
      assert IndexOf(line, ESC, at) == stop;
    }
  }

  lemma {:induction false} ChunkKeepsState<S>(env: Env<S>, line: Text, at: nat, stop: nat, st: SgrState<S>)
    requires at <= stop <= |line| && forall k :: at <= k < stop ==> line[k] != ESC
    ensures StateAfter(env, line, at, st) == StateAfter(env, line, stop, st)
    decreases stop - at
  {
    if at < stop {
      ChunkKeepsState(env, line, at + 1, stop, st);
    }
  }

  lemma ControlThenRest<S>(env: Env<S>, line: Text, at: nat, column: nat, st: SgrState<S>, links: seq<Link>,
      overlays: seq<Overlay>)
    requires at < |line| && line[at] == ESC
    ensures RowCells(env, line, at, column, st, links, overlays) ==
            RowCells(env, line, AfterControl(line, at, Renderer), column, AfterEffect(env, line, at, st), links,
                overlays)
    ensures StateAfter(env, line, at, st) == StateAfter(env, line, AfterControl(line, at, Renderer),
            AfterEffect(env, line, at, st))
  {
  }

  lemma NothingBehind<S>(env: Env<S>, line: Text, column: nat, st: SgrState<S>, links: seq<Link>,
      overlays: seq<Overlay>)
    ensures RowCells(env, line, |line|, column, st, links, overlays) == [] && StateAfter(env, line, |line|, st) == st
  {
  }

  lemma {:induction false} FlattenJoins<S>(a: seq<Segment<S>>, b: seq<Segment<S>>)
    ensures Flatten(a + b) == Flatten(a) + Flatten(b)
  {
    hide CellsOf;
    if b == [] {
      assert a + b == a;
    } else {
      var front, last := b[..|b| - 1], b[|b| - 1];
      FlattenJoins(a, front);
      assert b == front + [last];
      ConcatAssociates(a, front, [last]);
      FlattenMore(a + front, last);
      FlattenMore(front, last);
      ConcatAssociates(Flatten(a), Flatten(front), CellsOf(last));
    }
  }

  /** More segments take over from the rest of the row what they show. */
  lemma RowAdvances<S>(segments: seq<Segment<S>>, more: seq<Segment<S>>, before: seq<Cell<S>>, rest: seq<Cell<S>>,
      whole: seq<Cell<S>>)
    requires Flatten(segments) + before == whole && Flatten(more) + rest == before
    ensures Flatten(segments + more) + rest == whole
  {
    FlattenJoins(segments, more);
    ConcatAssociates(Flatten(segments), Flatten(more), rest);
  }

  ghost predicate AllShow<S>(segments: seq<Segment<S>>) {
    forall k :: 0 <= k < |segments| ==> |segments[k].text| > 0
  }

  lemma SomethingShows<S>(segments: seq<Segment<S>>)
    requires AllShow(segments)
    ensures Flatten(segments) == [] <==> segments == []
  {
    if segments != [] {
      assert |CellsOf(segments[|segments| - 1])| > 0;
    }
  }

  lemma NothingYet<S>(whole: seq<Cell<S>>)
    ensures Flatten([]) + whole == whole && AllShow<S>([])
  {
    assert Flatten<S>([]) == [];
  }

  lemma AllStillShow<S>(segments: seq<Segment<S>>, more: seq<Segment<S>>)
    requires AllShow(segments) && AllShow(more)
    ensures AllShow(segments + more)
  {
  }

  /** A walker only where there is something to walk over. */
  method MakeWalker(links: seq<Link>, overlays: seq<Overlay>) returns (walker: Walker?)
    requires forall link :: link in links ==> IsUsableRange(link)
    requires forall overlay :: overlay in overlays ==> IsUsableRange(overlay)
    ensures Ready(walker, links, overlays, 0) && (walker == null || fresh(walker))
  {
    if |links| == 0 && |overlays| == 0 {
      return null;
    }
    assert forall i :: 0 <= i < |links| ==> IsUsableRange(links[i]);
    assert forall i :: 0 <= i < |overlays| ==> IsUsableRange(overlays[i]);
    walker := new Walker(links, overlays);
  }

  /** Hand the text up to `stop` to `AppendText`. */
  method Flush<S>(env: Env<S>, walker: Walker?, line: Text, at: nat, stop: nat, column: nat, st: SgrState<S>,
      links: seq<Link>, overlays: seq<Overlay>)
    returns (segments: seq<Segment<S>>)
    requires at <= stop <= |line| && (forall k :: at <= k < stop ==> line[k] != ESC)
             && (stop == |line| || line[stop] == ESC)
    requires Ready(walker, links, overlays, column)
    modifies walker
    ensures Ready(walker, links, overlays, column + (stop - at)) && AllShow(segments)
    ensures Flatten(segments) + RowCells(env, line, stop, column + (stop - at), st, links, overlays)
            == RowCells(env, line, at, column, st, links, overlays)
    ensures StateAfter(env, line, at, st) == StateAfter(env, line, stop, st)
  {
    hide Ready, RowCells, StateAfter, Flatten, Cells;
    segments := AppendText(walker, line[at..stop], Setting(column, links, overlays, ExplicitHref(env, st), st));
    ChunkThenRest(env, line, at, stop, column, st, links, overlays);
    ChunkKeepsState(env, line, at, stop, st);
  }

  /** What a row renders to: its segments, or a single no-break space when nothing is visible. */
  datatype Rendered<S> = Row(segments: seq<Segment<S>>) | Blank

  method LineToHtml<S>(env: Env<S>, line: Text, st: SgrState<S>, links: seq<Link>, overlays: seq<Overlay>)
    returns (rendered: Rendered<S>, after: SgrState<S>)
    ensures after == StateAfter(env, line, 0, st)
    ensures var cells := RowCells(env, line, 0, 0, st, UsableLinks(env, links), UsableOverlays(overlays));
            && (rendered.Blank? <==> cells == [])
            && (rendered.Row? ==> Flatten(rendered.segments) == cells)
  {
    hide Ready, RowCells, StateAfter, Flatten, AfterControl, AfterEffect, UsableLinks, UsableOverlays, AllShow;
    var usableLinks, usableOverlays := FilterRanges(env, links, overlays);
    var walker := MakeWalker(usableLinks, usableOverlays);
    ghost var whole := RowCells(env, line, 0, 0, st, usableLinks, usableOverlays);
    var segments: seq<Segment<S>> := [];
    var column: nat, cursor: nat, textStart: nat := 0, 0, 0;
    after := st;
    NothingYet(whole);
    while cursor < |line|
      invariant textStart <= cursor <= |line|
      invariant forall k :: textStart <= k < cursor ==> line[k] != ESC
      invariant Ready(walker, usableLinks, usableOverlays, column)
      invariant walker == null || fresh(walker)
      invariant AllShow(segments)
      invariant Flatten(segments) + RowCells(env, line, textStart, column, after, usableLinks, usableOverlays) == whole
      invariant StateAfter(env, line, textStart, after) == StateAfter(env, line, 0, st)
      decreases |line| - cursor
    {
      if line[cursor] != ESC {
        cursor := cursor + 1;
        continue;
      }
      var more := Flush(env, walker, line, textStart, cursor, column, after, usableLinks, usableOverlays);
      RowAdvances(segments, more, RowCells(env, line, textStart, column, after, usableLinks, usableOverlays),
                  RowCells(env, line, cursor, column + (cursor - textStart), after, usableLinks, usableOverlays),
                      whole);
      AllStillShow(segments, more);
      segments, column := segments + more, column + (cursor - textStart);
      ControlThenRest(env, line, cursor, column, after, usableLinks, usableOverlays);
      cursor, after := ReadControl(env, line, cursor, after);
      textStart := cursor;
    }
    var more := Flush(env, walker, line, textStart, cursor, column, after, usableLinks, usableOverlays);
    RowAdvances(segments, more, RowCells(env, line, textStart, column, after, usableLinks, usableOverlays),
                RowCells(env, line, cursor, column + (cursor - textStart), after, usableLinks, usableOverlays), whole);
    NothingBehind(env, line, column + (cursor - textStart), after, usableLinks, usableOverlays);
    AllStillShow(segments, more);
    segments := segments + more;
    assert Flatten(segments) + [] == Flatten(segments);
    SomethingShows(segments);
    return if |segments| == 0 then Blank else Row(segments), after;
  }

  // ---- The renderer and the stripper --------------------------------------------------------------------

  lemma {:induction false} ChunkIsVisible(line: Text, at: nat, stop: nat, reader: Reader)
    requires at <= stop <= |line| && forall k :: at <= k < stop ==> line[k] != ESC
    ensures TextFrom(line, at, reader) == line[at..stop] + TextFrom(line, stop, reader)
    decreases stop - at
  {
    hide TextFrom, AfterControl;
    if at < stop {
      ChunkIsVisible(line, at + 1, stop, reader);
      TextUnfolds(line, at, reader);
      ConcatAssociates([line[at]], line[at + 1..stop], TextFrom(line, stop, reader));
      assert line[at..stop] == [line[at]] + line[at + 1..stop];
    }
  }

  lemma NothingIsLeft(line: Text)
    ensures TextFrom(line, |line|, Renderer) == []
  {
  }

  lemma ChunkShowsItself<S>(text: Text, setting: Setting<S>, rest: seq<Cell<S>>)
    ensures Glyphs(Cells(text, setting, |text|) + rest) == text + Glyphs(rest)
  {
    GlyphsJoin(Cells(text, setting, |text|), rest);
    assert Glyphs(Cells(text, setting, |text|)) == text;
  }

  lemma GlyphsJoin<S>(a: seq<Cell<S>>, b: seq<Cell<S>>)
    ensures Glyphs(a + b) == Glyphs(a) + Glyphs(b)
  {
  }

  /** What the renderer shows, in any paint and with any links and highlights, is the visible
      text of the row as the renderer reads it. */
  lemma {:induction false} RowShowsVisibleText<S>(env: Env<S>, line: Text, at: nat, column: nat, st: SgrState<S>,
      links: seq<Link>, overlays: seq<Overlay>)
    requires at <= |line|
    ensures Glyphs(RowCells(env, line, at, column, st, links, overlays)) == TextFrom(line, at, Renderer)
    decreases |line| - at
  {
    hide TextFrom, AfterControl, AfterEffect, Cells;
    if at == |line| {
      NothingBehind(env, line, column, st, links, overlays);
      assert TextFrom(line, at, Renderer) == [] by {
        NothingIsLeft(line);
      }
    } else if line[at] == ESC {
      TextUnfolds(line, at, Renderer);
      ControlThenRest(env, line, at, column, st, links, overlays);
      RowShowsVisibleText(env, line, AfterControl(line, at, Renderer), column, AfterEffect(env, line, at, st), links,
          overlays);
    } else {
      var stop := IndexOf(line, ESC, at);
      RowShowsVisibleText(env, line, stop, column + (stop - at), st, links, overlays);
      ChunkIsVisible(line, at, stop, Renderer);
      ChunkThenRest(env, line, at, stop, column, st, links, overlays);
      ChunkShowsItself(line[at..stop], Setting(column, links, overlays, ExplicitHref(env, st), st),
                       RowCells(env, line, stop, column + (stop - at), st, links, overlays));
    }
  }

  /** The renderer shows what the stripper leaves on every row where the two read alike, and, on
      rows of whole pairs with no BEL inside a CSI, on no other. */
  lemma RendererShowsStrippedText<S>(env: Env<S>, line: Text, st: SgrState<S>, links: seq<Link>, overlays: seq<Overlay>)
    ensures var shown := Glyphs(RowCells(env, line, 0, 0, st, links, overlays));
            && (ReadersAgreeFrom(line, 0) ==> shown == VisibleText(line, Stripper))
            && (IsWhole(line) && NoBelInCsi(line) && shown == VisibleText(line, Stripper) ==> ReadersAgreeFrom(line, 0))
  {
    RowShowsVisibleText(env, line, 0, 0, st, links, overlays);
    ReadersAgree(line, 0);
    if IsWhole(line) && NoBelInCsi(line) {
      SameTextMeansSameUnits(line);
    }
  }
}
