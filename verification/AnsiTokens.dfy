/** What a rendered row shows (core/src/ansi-html.ts), said of its tokens: every shown unit in the
    paint of the SGR controls in front of it and under the link that the last OSC 8 string in front
    of it left open. */
module AnsiTokens {
  import opened Wrappers
  import opened Text
  import opened TerminalControls
  import opened TerminalTokens
  import opened RangeWalker
  import opened AnsiHtml

  // ---- Paint --------------------------------------------------------------------------------------

  /** The parameters of the complete `CSI … m` controls, in order. */
  function SgrTexts(tokens: seq<Token>): seq<Text> {
    if tokens == [] then []
    else
      var last := tokens[|tokens| - 1];
      SgrTexts(tokens[..|tokens| - 1]) + if last.Csi? && last.final == 0x6d then [last.body] else []
  }

  /** The paint after all these parameters, applied in order. */
  function PaintAfter<S>(env: Env<S>, texts: seq<Text>, paint: S): S {
    if texts == [] then paint else env.applySgr(texts[|texts| - 1], PaintAfter(env, texts[..|texts| - 1], paint))
  }

  // ---- Links --------------------------------------------------------------------------------------

  predicate StartsWithEight(payload: Text) {
    |payload| >= 2 && payload[0] == 0x38 && payload[1] == 0x3b
  }

  /** An OSC 8 string, complete or cut off by the end of the row. */
  predicate IsLinkToken(token: Token) {
    (token.Osc? || token.CutOsc?) && StartsWithEight(token.payload)
  }

  /** The payload is `8;`, parameters without a semicolon, a semicolon and the link. */
  predicate HoldsLink(payload: Text, parameters: Text, uri: Text) {
    SEMICOLON !in parameters && payload == [0x38, 0x3b] + parameters + [0x3b] + uri
  }

  /** The link that the string leaves open: its own where it is complete, well-formed and safe, and
      none otherwise. */
  ghost predicate LeavesOpen<S>(env: Env<S>, token: Token, open: Option<Text>) {
    if token.Osc? && exists parameters, uri :: HoldsLink(token.payload, parameters, uri) && uri != [] && env.safe(uri)
    then exists parameters, uri :: HoldsLink(token.payload, parameters, uri) && open == Some(uri)
    else open.None?
  }

  /** The last OSC 8 string decides; without one, the link that was open before stays. */
  ghost predicate IsOpenAfter<S>(env: Env<S>, tokens: seq<Token>, before: Option<Text>, open: Option<Text>) {
    if tokens == [] then open == before
    else
      var last := tokens[|tokens| - 1];
      if IsLinkToken(last) then LeavesOpen(env, last, open)
      else IsOpenAfter(env, tokens[..|tokens| - 1], before, open)
  }

  // ---- One control ----------------------------------------------------------------------------------

  lemma SplitAtSecond(payload: Text, second: nat)
    requires StartsWithEight(payload) && 2 <= second <= |payload|
    requires (forall k :: 2 <= k < second ==> payload[k] != SEMICOLON)
    requires second < |payload| ==> payload[second] == SEMICOLON
    ensures second < |payload| ==> HoldsLink(payload, payload[2..second], payload[second + 1..])
    ensures forall parameters, uri :: HoldsLink(payload, parameters, uri) ==>
              second < |payload| && uri == payload[second + 1..]
  {
    if second < |payload| {
      assert payload == [0x38, 0x3b] + payload[2..second] + [0x3b] + payload[second + 1..];
    }
    forall parameters, uri | HoldsLink(payload, parameters, uri) ensures |parameters| == second - 2 {
      var at := 2 + |parameters|;
      assert payload[at] == SEMICOLON;
      forall k | 2 <= k < at ensures payload[k] != SEMICOLON {
        assert payload[k] == parameters[k - 2] && parameters[k - 2] in parameters;
      }
    }
    forall parameters, uri | HoldsLink(payload, parameters, uri)
      ensures second < |payload| && uri == payload[second + 1..]
    {
      assert uri == payload[|parameters| + 3..];
    }
  }

  lemma PayloadLeavesOpen<S>(env: Env<S>, payload: Text, st: SgrState<S>, bell: bool)
    requires StartsWithEight(payload)
    ensures LeavesOpen(env, Osc(payload, bell), ApplyOscPayload(env, payload, st).osc8Href)
    ensures ApplyOscPayload(env, payload, st).paint == st.paint
  {
    SplitAtSecond(payload, AnsiHtml.IndexOf(payload, SEMICOLON, 2));
  }

  /** One control: paint from `CSI … m` only, links from OSC 8 only. */
  lemma ControlEffect<S>(env: Env<S>, line: Text, at: nat, token: Token, st: SgrState<S>)
    requires StandsAt(line, at, token, Renderer) && !token.Glyph?
    ensures line[at] == ESC
    ensures var after := AfterEffect(env, line, at, st);
            && after.paint == (if token.Csi? && token.final == 0x6d then env.applySgr(token.body, st.paint)
                else st.paint)
            && (if IsLinkToken(token) then LeavesOpen(env, token, after.osc8Href) else after.osc8Href == st.osc8Href)
  {
    ControlIsRead(line, at, token, Renderer);
    UnitsOf(line, at, Print(token));
    hide AfterControl, LeavesOpen, ApplyOscPayload;
    match token {
      case Csi(body, final) => SgrEffect(env, line, at, token, body, st);
      case CutCsi(body) => SgrEffect(env, line, at, token, body, st);
      case Osc(payload, bell) =>
        OscEffect(env, line, at, token, payload, if bell then [BEL] else [ESC, BACKSLASH], st);
      case CutOsc(payload) => OscEffect(env, line, at, token, payload, [], st);
      case LoneEsc => LoneEscEffect(env, line, at, st);
      case Charset(_, _) => assert line[at + 1] == Print(token)[1];
      case CutCharset(_) => assert line[at + 1] == Print(token)[1];
      case TwoByte(_) => assert line[at + 1] == Print(token)[1];
    }
  }

  lemma LoneEscEffect<S>(env: Env<S>, line: Text, at: nat, st: SgrState<S>)
    requires StandsAt(line, at, LoneEsc, Renderer) && line[at] == ESC
    ensures AfterEffect(env, line, at, st) == st
  {
  }

  lemma SgrEffect<S>(env: Env<S>, line: Text, at: nat, token: Token, body: Text, st: SgrState<S>)
    requires StandsAt(line, at, token, Renderer) && line[at] == ESC
    requires (token.Csi? || token.CutCsi?) && token.body == body
    ensures AfterEffect(env, line, at, st) ==
            if token.Csi? && token.final == 0x6d then st.(paint := env.applySgr(body, st.paint)) else st
  {
    UnitsOf(line, at, Print(token));
    BodyStopsAt(line, at, token, body);
    assert line[at + 2..at + 2 + |body|] == body by {
      assert line[at..at + |Print(token)|][2..2 + |body|] == line[at + 2..at + 2 + |body|];
      assert Print(token)[2..2 + |body|] == body;
    }
    if token.Csi? {
      assert line[at + (|body| + 2)] == Print(token)[|body| + 2] == token.final;
    }
  }

  lemma OscEffect<S>(env: Env<S>, line: Text, at: nat, token: Token, payload: Text, behind: Text, st: SgrState<S>)
    requires StandsAt(line, at, token, Renderer) && line[at] == ESC
    requires (token.Osc? && behind == if token.bell then [BEL] else [ESC, BACKSLASH]) || (token.CutOsc? && behind == [])
    requires token.payload == payload
    ensures var after := AfterEffect(env, line, at, st);
            && after.paint == st.paint
            && (if IsLinkToken(token) then LeavesOpen(env, token, after.osc8Href) else after.osc8Href == st.osc8Href)
  {
    OscIsStanding(line, at, token, payload, behind);
    hide StandsAt, Print;
    if token.Osc? {
      if StartsWithEight(payload) {
        PayloadLeavesOpen(env, payload, st, token.bell);
      }
    } else {
      assert line[at + 2..] == payload;
    }
  }

  lemma OscIsStanding(line: Text, at: nat, token: Token, payload: Text, behind: Text)
    requires StandsAt(line, at, token, Renderer)
    requires (token.Osc? && behind == if token.bell then [BEL] else [ESC, BACKSLASH]) || (token.CutOsc? && behind == [])
    requires token.payload == payload
    ensures at + 2 + |payload| + |behind| <= |line| && line[at + 1] == RIGHT_BRACKET
    ensures behind == [] ==> at + 2 + |payload| == |line|
    ensures OscStop(line, at + 2) == at + 2 + |payload| && line[at + 2..at + 2 + |payload|] == payload
  {
    UnitsOf(line, at, Print(token));
    PayloadStopsAt(line, at, token, payload, behind);
    assert line[at..at + |Print(token)|][2..2 + |payload|] == line[at + 2..at + 2 + |payload|];
    assert Print(token)[2..2 + |payload|] == payload;
  }

  // ---- The row --------------------------------------------------------------------------------------

  /** The state in front of a token: paint and open link from what stands before it. */
  ghost predicate IsStateAfter<S>(env: Env<S>, tokens: seq<Token>, before: SgrState<S>, after: SgrState<S>) {
    && after.paint == PaintAfter(env, SgrTexts(tokens), before.paint)
    && IsOpenAfter(env, tokens, before.osc8Href, after.osc8Href)
  }

  lemma NothingChanges<S>(env: Env<S>, st: SgrState<S>)
    ensures IsStateAfter(env, [], st, st)
  {
  }

  lemma OneTokenMore<S>(env: Env<S>, tokens: seq<Token>, token: Token, entry: SgrState<S>, before: SgrState<S>,
      after: SgrState<S>)
    requires IsStateAfter(env, tokens, entry, before)
    requires after.paint == if token.Csi? && token.final == 0x6d then env.applySgr(token.body, before.paint)
                            else before.paint
    requires if IsLinkToken(token) then LeavesOpen(env, token, after.osc8Href) else after.osc8Href == before.osc8Href
    ensures IsStateAfter(env, tokens + [token], entry, after)
  {
    var more := tokens + [token];
    assert more[..|more| - 1] == tokens && more[|more| - 1] == token;
    var texts := SgrTexts(tokens);
    if token.Csi? && token.final == 0x6d {
      assert (texts + [token.body])[..|texts|] == texts;
    } else {
      assert texts + [] == texts;
    }
  }

  /** The state behind the row is that of all its tokens. */
  lemma {:induction false} RowLeavesState<S>(env: Env<S>, line: Text, at: nat, done: seq<Token>, tokens: seq<Token>,
      entry: SgrState<S>, st: SgrState<S>)
    requires AreTokensFrom(line, at, tokens, Renderer) && IsStateAfter(env, done, entry, st) && at <= |line|
    ensures IsStateAfter(env, done + tokens, entry, StateAfter(env, line, at, st))
    decreases |tokens|
  {
    hide StandsAt, IsStateAfter, StateAfter, Print;
    if tokens == [] {
      assert done + tokens == done;
      StateStays(env, line, st);
    } else {
      var token := tokens[0];
      var after := StateStep(env, line, at, done, token, entry, st);
      RowLeavesState(env, line, at + |Print(token)|, done + [token], tokens[1..], entry, after);
      hide AreTokensFrom;
      ConcatAssociates(done, [token], tokens[1..]);
      assert [token] + tokens[1..] == tokens;
    }
  }

  lemma StateUnfolds<S>(env: Env<S>, line: Text, at: nat, st: SgrState<S>)
    requires at < |line|
    ensures StateAfter(env, line, at, st) ==
            if line[at] == ESC then StateAfter(env, line, AfterControl(line, at, Renderer),
                AfterEffect(env, line, at, st))
            else StateAfter(env, line, at + 1, st)
  {
  }

  /** The state behind one token. */
  lemma StateStep<S>(env: Env<S>, line: Text, at: nat, done: seq<Token>, token: Token, entry: SgrState<S>,
      st: SgrState<S>)
    returns (after: SgrState<S>)
    requires StandsAt(line, at, token, Renderer) && IsStateAfter(env, done, entry, st)
    ensures at + |Print(token)| <= |line| && IsStateAfter(env, done + [token], entry, after)
    ensures StateAfter(env, line, at, st) == StateAfter(env, line, at + |Print(token)|, after)
    ensures if token.Glyph? then after == st && |Print(token)| == 1 && line[at] == token.unit != ESC
            else line[at] == ESC && AfterControl(line, at, Renderer) == at + |Print(token)|
                 && after == AfterEffect(env, line, at, st)
  {
    hide StandsAt, IsStateAfter, AfterEffect, AfterControl, IsLinkToken, LeavesOpen, StateAfter;
    TokenStands(line, at, token, Renderer);
    after := st;
    if !token.Glyph? {
      ControlIsRead(line, at, token, Renderer);
      ControlEffect(env, line, at, token, st);
      after := AfterEffect(env, line, at, st);
    }
    StateUnfolds(env, line, at, st);
    GlyphIsNoLink(token);
    OneTokenMore(env, done, token, entry, st, after);
  }

  lemma GlyphIsNoLink(token: Token)
    ensures token.Glyph? ==> !IsLinkToken(token)
  {
  }

  lemma StateStays<S>(env: Env<S>, line: Text, st: SgrState<S>)
    ensures StateAfter(env, line, |line|, st) == st
  {
  }

  /** What a row leaves behind: the entry paint under all its SGR parameters in order, and the link
      of its last OSC 8 string. */
  lemma RowState<S>(env: Env<S>, line: Text, tokens: seq<Token>, st: SgrState<S>)
    requires AreTokensFrom(line, 0, tokens, Renderer)
    ensures IsStateAfter(env, tokens, st, StateAfter(env, line, 0, st))
  {
    NothingChanges(env, st);
    RowLeavesState(env, line, 0, [], tokens, st, st);
    assert [] + tokens == tokens;
  }

  // ---- The shown units ------------------------------------------------------------------------------

  function Styles<S>(cells: seq<Cell<S>>): (styles: seq<SgrState<S>>)
    ensures |styles| == |cells|
  {
    seq(|cells|, k requires 0 <= k < |cells| => cells[k].style)
  }

  lemma StylesUnfold<S>(env: Env<S>, line: Text, at: nat, column: nat, st: SgrState<S>, links: seq<Link>,
      overlays: seq<Overlay>)
    requires at < |line| && line[at] != ESC
    ensures Styles(RowCells(env, line, at, column, st, links, overlays)) ==
            [st] + Styles(RowCells(env, line, at + 1, column + 1, st, links, overlays))
  {
    hide RowCells, Styles, Repeated;
    var stop := AnsiHtml.IndexOf(line, ESC, at);
    var rest := RowCells(env, line, stop, column + (stop - at), st, links, overlays);
    StylesOfChunk(env, line, at, stop, column, st, links, overlays);
    StylesOfChunk(env, line, at + 1, stop, column + 1, st, links, overlays);
    SameStyles(st, stop - at, Styles(rest));
  }

  lemma StylesOfChunk<S>(env: Env<S>, line: Text, at: nat, stop: nat, column: nat, st: SgrState<S>, links: seq<Link>,
      overlays: seq<Overlay>)
    requires at <= stop <= |line| && (forall k :: at <= k < stop ==> line[k] != ESC)
             && (stop == |line| || line[stop] == ESC)
    ensures Styles(RowCells(env, line, at, column, st, links, overlays)) ==
            Repeated(st, stop - at) + Styles(RowCells(env, line, stop, column + (stop - at), st, links, overlays))
  {
    hide RowCells, Styles, Repeated;
    var rest := RowCells(env, line, stop, column + (stop - at), st, links, overlays);
    ChunkThenRest(env, line, at, stop, column, st, links, overlays);
    ChunkStyles(line[at..stop], Setting(column, links, overlays, ExplicitHref(env, st), st), rest);
  }

  function Repeated<T>(item: T, count: nat): (items: seq<T>)
    ensures |items| == count && forall k :: 0 <= k < count ==> items[k] == item
  {
    seq(count, _ => item)
  }

  lemma SameStyles<T>(item: T, count: nat, rest: seq<T>)
    requires count > 0
    ensures Repeated(item, count) + rest == [item] + (Repeated(item, count - 1) + rest)
  {
  }

  lemma ChunkStyles<S>(text: Text, setting: Setting<S>, rest: seq<Cell<S>>)
    ensures Styles(Cells(text, setting, |text|) + rest) == Repeated(setting.style, |text|) + Styles(rest)
  {
  }

  /** The tokens in front of the `k`-th glyph. */
  function BeforeGlyph(tokens: seq<Token>, k: nat): (front: seq<Token>)
    requires k < |Shown(tokens)|
    ensures front <= tokens
  {
    if tokens[0].Glyph? && k == 0 then []
    else
      var rest := BeforeGlyph(tokens[1..], if tokens[0].Glyph? then k - 1 else k);
      assert tokens == [tokens[0]] + tokens[1..];
      [tokens[0]] + rest
  }

  /** Every shown unit is in the state that the tokens in front of it leave. */
  lemma {:induction false} UnitsAreStyled<S>(env: Env<S>, line: Text, at: nat, column: nat, done: seq<Token>,
      tokens: seq<Token>, entry: SgrState<S>, st: SgrState<S>, links: seq<Link>, overlays: seq<Overlay>)
    requires AreTokensFrom(line, at, tokens, Renderer) && IsStateAfter(env, done, entry, st) && at <= |line|
    ensures var styles := Styles(RowCells(env, line, at, column, st, links, overlays));
            && |styles| == |Shown(tokens)|
            && forall k :: 0 <= k < |styles| ==> IsStateAfter(env, done + BeforeGlyph(tokens, k), entry, styles[k])
    decreases |tokens|
  {
    hide StandsAt, IsStateAfter, AfterEffect, AfterControl, RowCells, StateAfter, Styles;
    if tokens == [] {
      NothingBehind(env, line, column, st, links, overlays);
      assert |Styles(RowCells(env, line, at, column, st, links, overlays))| == 0;
    } else {
      var token, rest := tokens[0], tokens[1..];
      var after := StateStep(env, line, at, done, token, entry, st);
      var next, columnAfter := at + |Print(token)|, if token.Glyph? then column + 1 else column;
      if token.Glyph? {
        StylesUnfold(env, line, at, column, st, links, overlays);
      } else {
        ControlThenRest(env, line, at, column, st, links, overlays);
      }
      UnitsAreStyled(env, line, next, columnAfter, done + [token], rest, entry, after, links, overlays);
      StylesOfRest(env, done, token, rest, entry, st, Styles(RowCells(env, line, next, columnAfter, after, links,
          overlays)));
      assert [token] + rest == tokens;
    }
  }

  lemma StylesOfRest<S>(env: Env<S>, done: seq<Token>, token: Token, rest: seq<Token>, entry: SgrState<S>,
      st: SgrState<S>, later: seq<SgrState<S>>)
    requires IsStateAfter(env, done, entry, st) && |later| == |Shown(rest)|
    requires forall k :: 0 <= k < |later| ==> IsStateAfter(env, done + [token] + BeforeGlyph(rest, k), entry, later[k])
    ensures var styles, tokens := (if token.Glyph? then [st] else []) + later, [token] + rest;
            && |styles| == |Shown(tokens)|
            && forall k :: 0 <= k < |styles| ==> IsStateAfter(env, done + BeforeGlyph(tokens, k), entry, styles[k])
  {
    hide IsStateAfter;
    var styles, tokens := (if token.Glyph? then [st] else []) + later, [token] + rest;
    assert tokens[1..] == rest;
    assert done + [] == done;
    forall k | 0 <= k < |styles| ensures IsStateAfter(env, done + BeforeGlyph(tokens, k), entry, styles[k]) {
      if !(token.Glyph? && k == 0) {
        ConcatAssociates(done, [token], BeforeGlyph(rest, if token.Glyph? then k - 1 else k));
      }
    }
  }

  // ---- Links and highlights by column -----------------------------------------------------------------

  /** The first half of a pair, or the unit itself: where its link is looked up. */
  function LookedUpAt(line: Text, offsets: seq<nat>, k: nat): nat
    requires k < |offsets|
  {
    if k > 0 && offsets[k - 1] + 1 == offsets[k] && IsSurrogatePairAt(line, offsets[k - 1]) then k - 1 else k
  }

  /** The `k`-th shown unit: the open link overrides the links of the row, which stand in visible
      columns; a pair whose first half has none takes its second half's. */
  predicate IsShownAt<S>(env: Env<S>, line: Text, offsets: seq<nat>, k: nat, column: nat, links: seq<Link>,
      overlays: seq<Overlay>, cell: Cell<S>)
    requires k < |offsets| && offsets[k] < |line|
  {
    var lead := LookedUpAt(line, offsets, k);
    var explicit, pair := ExplicitHref(env, cell.style), IsSurrogatePairAt(line, offsets[lead]);
    var here, highlight := HrefByScan(links, column + lead), OverlayByScan(overlays, column + lead);
    && cell.glyph == line[offsets[k]]
    && cell.href == (if explicit.Some? then explicit
                     else if here.None? && pair then HrefByScan(links, column + lead + 1) else here)
    && cell.overlay == (if highlight.None? && explicit.None? && pair then OverlayByScan(overlays, column + lead + 1)
                        else highlight)
  }

  lemma {:induction false} OffsetsOfChunk(line: Text, at: nat, stop: nat)
    requires at <= stop <= |line| && forall k :: at <= k < stop ==> line[k] != ESC
    ensures var offsets := VisibleFrom(line, at, Renderer);
            && |offsets| == stop - at + |VisibleFrom(line, stop, Renderer)|
            && (forall k :: 0 <= k < stop - at ==> offsets[k] == at + k)
            && offsets[stop - at..] == VisibleFrom(line, stop, Renderer)
    decreases stop - at
  {
    if at < stop {
      OffsetsOfChunk(line, at + 1, stop);
      assert VisibleFrom(line, at, Renderer)[1..] == VisibleFrom(line, at + 1, Renderer);
    }
  }

  lemma ChunkIsShown<S>(env: Env<S>, line: Text, at: nat, stop: nat, column: nat, st: SgrState<S>, links: seq<Link>,
      overlays: seq<Overlay>, offsets: seq<nat>, k: nat)
    requires at < stop <= |line| && (forall j :: at <= j < stop ==> line[j] != ESC)
    requires stop == |line| || line[stop] == ESC
    requires k < stop - at <= |offsets| && forall j :: 0 <= j < stop - at ==> offsets[j] == at + j
    ensures var chunk := line[at..stop];
            var setting := Setting(column, links, overlays, ExplicitHref(env, st), st);
            IsShownAt(env, line, offsets, k, column, links, overlays, CellAt(chunk, setting, k))
  {
    var chunk := line[at..stop];
    PairInChunk(line, at, stop, k);
    PairInChunk(line, at, stop, k - 1);
    assert chunk[k] == line[at + k];
  }

  lemma PairInChunk(line: Text, at: nat, stop: nat, k: int)
    requires at < stop <= |line| && -1 <= k < stop - at && (stop == |line| || line[stop] == ESC)
    ensures k >= 0 ==> (IsSurrogatePairAt(line[at..stop], k) <==> IsSurrogatePairAt(line, at + k))
    ensures k < 0 ==> !IsSurrogatePairAt(line[at..stop], k)
  {
  }

  /** A later part of the row is shown as it is in the whole row. */
  lemma ShownLater<S>(env: Env<S>, line: Text, offsets: seq<nat>, skipped: nat, k: nat, column: nat, links: seq<Link>,
      overlays: seq<Overlay>, cell: Cell<S>)
    requires skipped + k < |offsets| && forall j :: 0 <= j < |offsets| ==> offsets[j] < |line|
    requires k == 0 && skipped > 0 ==> offsets[skipped - 1] + 1 != offsets[skipped]
    ensures IsShownAt(env, line, offsets[skipped..], k, column + skipped, links, overlays, cell) <==>
            IsShownAt(env, line, offsets, skipped + k, column, links, overlays, cell)
  {
  }

  /** Every shown unit stands under the link and the highlight of its own column. */
  lemma {:induction false} UnitsAreLinked<S>(env: Env<S>, line: Text, at: nat, column: nat, st: SgrState<S>,
      links: seq<Link>, overlays: seq<Overlay>)
    requires at <= |line|
    ensures var cells, offsets := RowCells(env, line, at, column, st, links, overlays), VisibleFrom(line, at, Renderer);
            && |cells| == |offsets|
            && forall k :: 0 <= k < |cells| ==> IsShownAt(env, line, offsets, k, column, links, overlays, cells[k])
    decreases |line| - at
  {
    hide AfterControl, AfterEffect, Cells, IsShownAt;
    if at == |line| {
      NothingBehind(env, line, column, st, links, overlays);
    } else if line[at] == ESC {
      ControlThenRest(env, line, at, column, st, links, overlays);
      UnitsAreLinked(env, line, AfterControl(line, at, Renderer), column, AfterEffect(env, line, at, st), links,
          overlays);
    } else {
      var stop := AnsiHtml.IndexOf(line, ESC, at);
      UnitsAreLinked(env, line, stop, column + (stop - at), st, links, overlays);
      OffsetsOfChunk(line, at, stop);
      ChunkThenRest(env, line, at, stop, column, st, links, overlays);
      var offsets, n := VisibleFrom(line, at, Renderer), stop - at;
      var setting := Setting(column, links, overlays, ExplicitHref(env, st), st);
      var front, rest := Cells(line[at..stop], setting, n), RowCells(env, line, stop, column + n, st, links, overlays);
      RestIsFurther(line, stop);
      hide VisibleFrom, RowCells;
      forall k: nat | k < n ensures IsShownAt(env, line, offsets, k, column, links, overlays, front[k]) {
        ChunkIsShown(env, line, at, stop, column, st, links, overlays, offsets, k);
      }
      ShownTogether(env, line, offsets, n, column, links, overlays, front, rest);
    }
  }

  /** Behind a chunk no unit is shown right away. */
  lemma RestIsFurther(line: Text, stop: nat)
    requires stop <= |line| && (stop == |line| || line[stop] == ESC)
    ensures |VisibleFrom(line, stop, Renderer)| > 0 ==> VisibleFrom(line, stop, Renderer)[0] > stop
  {
  }

  lemma ShownTogether<S>(env: Env<S>, line: Text, offsets: seq<nat>, n: nat, column: nat, links: seq<Link>,
      overlays: seq<Overlay>, front: seq<Cell<S>>, rest: seq<Cell<S>>)
    requires |front| == n && n + |rest| == |offsets| && forall j :: 0 <= j < |offsets| ==> offsets[j] < |line|
    requires 0 < n < |offsets| ==> offsets[n - 1] + 1 != offsets[n]
    requires forall k :: 0 <= k < n ==> IsShownAt(env, line, offsets, k, column, links, overlays, front[k])
    requires forall k :: 0 <= k < |rest| ==>
               IsShownAt(env, line, offsets[n..], k, column + n, links, overlays, rest[k])
    ensures forall k :: 0 <= k < |offsets| ==>
              IsShownAt(env, line, offsets, k, column, links, overlays, (front + rest)[k])
  {
    hide IsShownAt;
    forall k: nat | k < |offsets| ensures IsShownAt(env, line, offsets, k, column, links, overlays, (front + rest)[k]) {
      if k >= n {
        ShownLater(env, line, offsets, n, k - n, column, links, overlays, rest[k - n]);
      }
    }
  }

  /** What a row shows: its glyph tokens, each in the paint and under the open link that the tokens
      in front of it leave, and else under the link and the highlight of its visible column. */
  lemma RowIsShown<S>(env: Env<S>, line: Text, tokens: seq<Token>, st: SgrState<S>, links: seq<Link>,
      overlays: seq<Overlay>)
    requires AreTokensFrom(line, 0, tokens, Renderer)
    ensures var cells, offsets := RowCells(env, line, 0, 0, st, links, overlays), VisibleFrom(line, 0, Renderer);
            && Glyphs(cells) == Shown(tokens) && |cells| == |offsets|
            && (forall k :: 0 <= k < |cells| ==> IsStateAfter(env, BeforeGlyph(tokens, k), st, cells[k].style))
            && (forall k :: 0 <= k < |cells| ==> IsShownAt(env, line, offsets, k, 0, links, overlays, cells[k]))
  {
    NothingChanges(env, st);
    UnitsAreStyled(env, line, 0, 0, [], tokens, st, st, links, overlays);
    UnitsAreLinked(env, line, 0, 0, st, links, overlays);
    RowShowsVisibleText(env, line, 0, 0, st, links, overlays);
    GlyphsAreShown(line, 0, tokens, Renderer);
    hide RowCells, AreTokensFrom, IsStateAfter, IsShownAt, VisibleFrom;
    var cells := RowCells(env, line, 0, 0, st, links, overlays);
    forall k: nat | k < |cells| ensures IsStateAfter(env, BeforeGlyph(tokens, k), st, cells[k].style) {
      assert [] + BeforeGlyph(tokens, k) == BeforeGlyph(tokens, k);
      assert Styles(cells)[k] == cells[k].style;
    }
  }
}
