/** The control grammar of terminal rows apart from any scanner: rows as lists of tokens. What
    core/src/terminal-controls.ts leaves of a row, and what core/src/ansi-html.ts shows of it, are
    its glyph tokens. CSI sequences end as section 5.4 of ECMA-48 says. */
module TerminalTokens {
  import opened Wrappers
  import opened Text
  import opened TerminalControls

  /** A cut token lacks its end: another ESC, a surrogate pair or the end of the row is in the way. */
  datatype Token =
    | Glyph(unit: Unit)
    | Csi(body: Text, final: Unit)
    | CutCsi(body: Text)
    | Osc(payload: Text, bell: bool)
    | CutOsc(payload: Text)
    | Charset(kind: Unit, third: Unit)
    | CutCharset(kind: Unit)
    | TwoByte(unit: Unit)
    | LoneEsc

  function Print(token: Token): (text: Text)
    ensures |text| > 0
  {
    match token
    case Glyph(unit) => [unit]
    case Csi(body, final) => [ESC, LEFT_BRACKET] + body + [final]
    case CutCsi(body) => [ESC, LEFT_BRACKET] + body
    case Osc(payload, bell) => [ESC, RIGHT_BRACKET] + payload + if bell then [BEL] else [ESC, BACKSLASH]
    case CutOsc(payload) => [ESC, RIGHT_BRACKET] + payload
    case Charset(kind, third) => [ESC, kind, third]
    case CutCharset(kind) => [ESC, kind]
    case TwoByte(unit) => [ESC, unit]
    case LoneEsc => [ESC]
  }

  predicate IsCsiBody(body: Text) {
    forall k :: 0 <= k < |body| ==> body[k] != ESC && !(0x40 <= body[k] <= 0x7e)
  }

  /** Neither BEL nor `ESC \` in the payload, not even with the unit behind it. */
  predicate IsPayload(payload: Text, behind: Text) {
    forall k :: 0 <= k < |payload| ==>
      && payload[k] != BEL
      && (payload[k] == ESC && k + 1 < |payload + behind| ==> (payload + behind)[k + 1] != BACKSLASH)
  }

  /** What stands at `i` begins with an ESC or a surrogate pair. */
  predicate IsShielded(raw: Text, i: nat) {
    i >= |raw| || raw[i] == ESC || IsSurrogatePairAt(raw, i)
  }

  /** The token may stand in the row with its end at `end`. */
  predicate MayStand(raw: Text, token: Token, end: nat, reader: Reader)
    requires 0 < end <= |raw|
  {
    match token
    case Glyph(unit) => unit != ESC
    case Csi(body, final) => IsCsiBody(body) && 0x40 <= final <= 0x7e
    case CutCsi(body) => IsCsiBody(body) && (end == |raw| || raw[end] == ESC)
    case Osc(payload, bell) => IsPayload(payload, if bell then [BEL] else [ESC, BACKSLASH])
    case CutOsc(payload) => IsPayload(payload, []) && end == |raw|
    case Charset(kind, third) => kind in CHARSET && !IsShielded(raw, end - 1)
    case CutCharset(kind) => kind in CHARSET && IsShielded(raw, end)
    case TwoByte(unit) =>
      && unit != LEFT_BRACKET && unit != RIGHT_BRACKET && unit !in CHARSET
      && (reader.Renderer? ==> !IsShielded(raw, end - 1))
    case LoneEsc => end == |raw| || (reader.Renderer? && IsShielded(raw, end))
  }

  predicate StandsAt(raw: Text, at: nat, token: Token, reader: Reader) {
    && at + |Print(token)| <= |raw|
    && raw[at..at + |Print(token)|] == Print(token)
    && MayStand(raw, token, at + |Print(token)|, reader)
  }

  /** From `at` on, the row is these tokens. */
  predicate AreTokensFrom(raw: Text, at: nat, tokens: seq<Token>, reader: Reader)
    decreases |tokens|
  {
    if tokens == [] then at == |raw|
    else StandsAt(raw, at, tokens[0], reader) && AreTokensFrom(raw, at + |Print(tokens[0])|, tokens[1..], reader)
  }

  function Shown(tokens: seq<Token>): Text {
    if tokens == [] then [] else (if tokens[0].Glyph? then [tokens[0].unit] else []) + Shown(tokens[1..])
  }

  // ---- Tokens and the scanners --------------------------------------------------------------------

  lemma UnitOf(raw: Text, at: nat, part: Text, k: nat)
    requires at + |part| <= |raw| && raw[at..at + |part|] == part && k < |part|
    ensures raw[at + k] == part[k]
  {
    assert raw[at..at + |part|][k] == raw[at + k];
  }

  lemma {:induction false} CsiStopsAt(raw: Text, at: nat, stop: nat)
    requires at <= stop <= |raw| && (forall k :: at <= k < stop ==> raw[k] != ESC && !IsCsiFinal(raw[k]))
    requires stop == |raw| || raw[stop] == ESC || IsCsiFinal(raw[stop])
    ensures CsiStop(raw, at) == stop
    decreases stop - at
  {
    if at < stop {
      CsiStopsAt(raw, at + 1, stop);
    }
  }

  lemma {:induction false} OscStopsAt(raw: Text, at: nat, stop: nat)
    requires at <= stop <= |raw| && (forall k :: at <= k < stop ==> !OscTerminatorAt(raw, k))
    requires stop == |raw| || OscTerminatorAt(raw, stop)
    ensures OscStop(raw, at) == stop
    decreases stop - at
  {
    if at < stop {
      OscStopsAt(raw, at + 1, stop);
    }
  }

  lemma UnitsOf(raw: Text, at: nat, part: Text)
    requires at + |part| <= |raw| && raw[at..at + |part|] == part
    ensures forall k :: 0 <= k < |part| ==> raw[at + k] == part[k]
  {
    forall k | 0 <= k < |part| ensures raw[at + k] == part[k] {
      UnitOf(raw, at, part, k);
    }
  }

  /** A control token is read as one control. */
  lemma ControlIsRead(raw: Text, at: nat, token: Token, reader: Reader)
    requires StandsAt(raw, at, token, reader) && !token.Glyph?
    ensures at < |raw| && raw[at] == ESC && AfterControl(raw, at, reader) == at + |Print(token)|
  {
    UnitsOf(raw, at, Print(token));
    var end := at + |Print(token)|;
    assert raw[at + 0] == Print(token)[0];
    match token {
      case Csi(body, final) => BodyStopsAt(raw, at, token, body);
      case CutCsi(body) => BodyStopsAt(raw, at, token, body);
      case Osc(payload, bell) => PayloadStopsAt(raw, at, token, payload, if bell then [BEL] else [ESC, BACKSLASH]);
      case CutOsc(payload) => PayloadStopsAt(raw, at, token, payload, []);
      case Charset(_, _) => assert raw[at + 1] == Print(token)[1] && raw[at + 2] == Print(token)[2];
      case CutCharset(_) => assert raw[at + 1] == Print(token)[1];
      case TwoByte(_) => assert raw[at + 1] == Print(token)[1];
      case LoneEsc => LoneEscIsRead(raw, at, reader);
    }
  }

  lemma BodyStopsAt(raw: Text, at: nat, token: Token, body: Text)
    requires at + |Print(token)| <= |raw| && forall k :: 0 <= k < |Print(token)| ==> raw[at + k] == Print(token)[k]
    requires IsCsiBody(body)
    requires match token
             case Csi(b, final) => b == body && IsCsiFinal(final)
             case CutCsi(b) => b == body && (at + |Print(token)| == |raw| || raw[at + |Print(token)|] == ESC)
             case _ => false
    ensures raw[at + 1] == LEFT_BRACKET && CsiStop(raw, at + 2) == at + 2 + |body|
  {
    assert raw[at + 1] == Print(token)[1];
    forall k | at + 2 <= k < at + 2 + |body| ensures raw[k] == body[k - (at + 2)] {
      assert raw[at + (k - at)] == Print(token)[k - at];
    }
    if token.Csi? {
      assert raw[at + (|body| + 2)] == Print(token)[|body| + 2] == token.final;
    }
    CsiStopsAt(raw, at + 2, at + 2 + |body|);
  }

  lemma PayloadStopsAt(raw: Text, at: nat, token: Token, payload: Text, behind: Text)
    requires at + |Print(token)| <= |raw| && forall k :: 0 <= k < |Print(token)| ==> raw[at + k] == Print(token)[k]
    requires IsPayload(payload, behind) && Print(token) == [ESC, RIGHT_BRACKET] + payload + behind
    requires behind == [BEL] || behind == [ESC, BACKSLASH] || (behind == [] && at + |Print(token)| == |raw|)
    ensures raw[at + 1] == RIGHT_BRACKET && OscStop(raw, at + 2) == at + 2 + |payload|
  {
    assert raw[at + 1] == Print(token)[1];
    var text := payload + behind;
    forall k | 0 <= k < |text| ensures raw[at + 2 + k] == text[k] {
      assert raw[at + (k + 2)] == Print(token)[k + 2];
    }
    forall k | at + 2 <= k < at + 2 + |payload| ensures !OscTerminatorAt(raw, k) {
      var j := k - (at + 2);
      assert raw[at + 2 + j] == text[j] == payload[j];
      if j + 1 < |text| {
        assert raw[at + 2 + (j + 1)] == text[j + 1];
      }
    }
    if behind != [] {
      assert raw[at + 2 + |payload|] == text[|payload|];
      if |behind| == 2 {
        assert raw[at + 2 + (|payload| + 1)] == text[|payload| + 1];
      }
    }
    OscStopsAt(raw, at + 2, at + 2 + |payload|);
  }

  lemma LoneEscIsRead(raw: Text, at: nat, reader: Reader)
    requires at < |raw| && raw[at] == ESC && (at + 1 == |raw| || (reader.Renderer? && IsShielded(raw, at + 1)))
    ensures AfterControl(raw, at, reader) == at + 1
  {
  }

  /** What either reader shows of a row is its glyph tokens. */
  lemma {:induction false} GlyphsAreShown(raw: Text, at: nat, tokens: seq<Token>, reader: Reader)
    requires AreTokensFrom(raw, at, tokens, reader)
    ensures TextFrom(raw, at, reader) == Shown(tokens)
    decreases |tokens|
  {
    hide StandsAt, AfterControl, TextFrom;
    if tokens == [] {
      NothingIsShown(raw, reader);
    } else {
      GlyphsAreShown(raw, at + |Print(tokens[0])|, tokens[1..], reader);
      TokenStands(raw, at, tokens[0], reader);
      if !tokens[0].Glyph? {
        ControlIsRead(raw, at, tokens[0], reader);
      }
      TextUnfolds(raw, at, reader);
    }
  }

  lemma TokenStands(raw: Text, at: nat, token: Token, reader: Reader)
    requires StandsAt(raw, at, token, reader)
    ensures at + |Print(token)| <= |raw|
    ensures token.Glyph? ==> raw[at] == token.unit != ESC && |Print(token)| == 1
  {
    UnitsOf(raw, at, Print(token));
    assert raw[at + 0] == Print(token)[0];
  }

  // ---- Every row is tokens ------------------------------------------------------------------------

  /** The token at a place of a row. */
  function TokenAt(raw: Text, at: nat, reader: Reader): Token
    requires at < |raw|
  {
    if raw[at] != ESC then Glyph(raw[at])
    else if at + 1 == |raw| then LoneEsc
    else if raw[at + 1] == LEFT_BRACKET then
      var stop := CsiStop(raw, at + 2);
      if stop < |raw| && raw[stop] != ESC then Csi(raw[at + 2..stop], raw[stop]) else CutCsi(raw[at + 2..stop])
    else if raw[at + 1] == RIGHT_BRACKET then
      var stop := OscStop(raw, at + 2);
      if stop < |raw| then Osc(raw[at + 2..stop], raw[stop] == BEL) else CutOsc(raw[at + 2..stop])
    else if raw[at + 1] in CHARSET then
      if IsShielded(raw, at + 2) then CutCharset(raw[at + 1]) else Charset(raw[at + 1], raw[at + 2])
    else if reader.Renderer? && IsShielded(raw, at + 1) then LoneEsc
    else TwoByte(raw[at + 1])
  }

  lemma TokenAtStands(raw: Text, at: nat, reader: Reader)
    requires at < |raw|
    ensures StandsAt(raw, at, TokenAt(raw, at, reader), reader)
  {
    if raw[at] == ESC && at + 1 < |raw| {
      if raw[at + 1] == LEFT_BRACKET {
        CsiTokenStands(raw, at, reader);
      } else if raw[at + 1] == RIGHT_BRACKET {
        OscTokenStands(raw, at, reader);
      }
    }
  }

  lemma CsiTokenStands(raw: Text, at: nat, reader: Reader)
    requires at + 1 < |raw| && raw[at] == ESC && raw[at + 1] == LEFT_BRACKET
    ensures StandsAt(raw, at, TokenAt(raw, at, reader), reader)
  {
    hide StandsAt;
    var stop := CsiStop(raw, at + 2);
    BodyIsClean(raw, at + 2, stop);
    if stop < |raw| && raw[stop] != ESC {
      CompleteCsiStands(raw, at, stop, reader);
    } else {
      CutCsiStands(raw, at, stop, reader);
    }
  }

  lemma BodyIsClean(raw: Text, at: nat, stop: nat)
    requires at <= stop <= |raw| && forall k :: at <= k < stop ==> raw[k] != ESC && !IsCsiFinal(raw[k])
    ensures IsCsiBody(raw[at..stop])
  {
    assert forall k :: 0 <= k < stop - at ==> raw[at..stop][k] == raw[at + k];
  }

  lemma CompleteCsiStands(raw: Text, at: nat, stop: nat, reader: Reader)
    requires at + 2 <= stop < |raw| && raw[at] == ESC && raw[at + 1] == LEFT_BRACKET
    requires IsCsiBody(raw[at + 2..stop]) && IsCsiFinal(raw[stop])
    ensures StandsAt(raw, at, Csi(raw[at + 2..stop], raw[stop]), reader)
  {
    hide IsCsiBody;
    assert raw[at..stop + 1] == [ESC, LEFT_BRACKET] + raw[at + 2..stop] + [raw[stop]];
  }

  lemma CutCsiStands(raw: Text, at: nat, stop: nat, reader: Reader)
    requires at + 2 <= stop <= |raw| && raw[at] == ESC && raw[at + 1] == LEFT_BRACKET
    requires IsCsiBody(raw[at + 2..stop]) && (stop == |raw| || raw[stop] == ESC)
    ensures StandsAt(raw, at, CutCsi(raw[at + 2..stop]), reader)
  {
    hide IsCsiBody;
    assert raw[at..stop] == [ESC, LEFT_BRACKET] + raw[at + 2..stop];
  }

  lemma OscTokenStands(raw: Text, at: nat, reader: Reader)
    requires at + 1 < |raw| && raw[at] == ESC && raw[at + 1] == RIGHT_BRACKET
    ensures StandsAt(raw, at, TokenAt(raw, at, reader), reader)
  {
    var stop := OscStop(raw, at + 2);
    var payload := raw[at + 2..stop];
    assert raw[at..stop] == [ESC, RIGHT_BRACKET] + payload;
    var behind := if stop == |raw| then [] else if raw[stop] == BEL then [BEL] else [ESC, BACKSLASH];
    assert raw[at..stop + |behind|] == [ESC, RIGHT_BRACKET] + payload + behind;
    PayloadIsClean(raw, at + 2, payload, behind);
    hide IsPayload;
  }

  lemma PayloadIsClean(raw: Text, at: nat, payload: Text, behind: Text)
    requires at + |payload| + |behind| <= |raw| && raw[at..at + |payload|] == payload
    requires raw[at + |payload|..at + |payload| + |behind|] == behind
    requires forall k :: at <= k < at + |payload| ==> !OscTerminatorAt(raw, k)
    ensures IsPayload(payload, behind)
  {
    var text := payload + behind;
    assert text == raw[at..at + |text|];
    forall k | 0 <= k < |payload|
      ensures payload[k] != BEL && (payload[k] == ESC && k + 1 < |text| ==> text[k + 1] != BACKSLASH)
    {
      assert !OscTerminatorAt(raw, at + k);
      assert payload[k] == raw[at + k];
      assert k + 1 < |text| ==> text[k + 1] == raw[at + (k + 1)];
    }
  }

  /** Every row is a list of tokens, for either reader. */
  lemma {:induction false} RowIsTokens(raw: Text, at: nat, reader: Reader) returns (tokens: seq<Token>)
    requires at <= |raw|
    ensures AreTokensFrom(raw, at, tokens, reader)
    decreases |raw| - at
  {
    hide StandsAt, TokenAt;
    if at == |raw| {
      tokens := [];
    } else {
      var token := TokenAt(raw, at, reader);
      TokenAtStands(raw, at, reader);
      TokenStands(raw, at, token, reader);
      var rest := RowIsTokens(raw, at + |Print(token)|, reader);
      tokens := [token] + rest;
      assert tokens[1..] == rest;
    }
  }

  // ---- Blank separators ---------------------------------------------------------------------------

  /** A blank cell, or paint whose parameters are digits, `:` and `;`. */
  predicate IsBlankToken(token: Token) {
    || (token.Glyph? && (token.unit == 0x20 || token.unit == 0x09 || token.unit == 0xa0))
    || (token.Csi? && token.final == 0x6d && forall k :: 0 <= k < |token.body| ==> 0x30 <= token.body[k] <= 0x3b)
  }

  lemma {:induction false} SgrStopsAt(raw: Text, at: nat, stop: nat)
    requires at <= stop <= |raw| && (forall k :: at <= k < stop ==> IsSgrParameter(raw[k]))
    requires stop == |raw| || !IsSgrParameter(raw[stop])
    ensures SgrStop(raw, at) == stop
    decreases stop - at
  {
    if at < stop {
      SgrStopsAt(raw, at + 1, stop);
    }
  }

  lemma {:induction false} SgrStopIsFirst(raw: Text, at: nat)
    requires at <= |raw|
    ensures forall k :: at <= k < SgrStop(raw, at) ==> IsSgrParameter(raw[k])
    decreases |raw| - at
  {
    if at < |raw| && IsSgrParameter(raw[at]) {
      SgrStopIsFirst(raw, at + 1);
    }
  }

  lemma CsiIsBlank(raw: Text, at: nat, token: Token, reader: Reader)
    requires StandsAt(raw, at, token, reader) && token.Csi?
    ensures CsiStop(raw, at + 2) == at + 2 + |token.body| && raw[at + 2 + |token.body|] == token.final
    ensures IsBlankToken(token) <==> token.final == 0x6d && SgrStop(raw, at + 2) == at + 2 + |token.body|
  {
    UnitsOf(raw, at, Print(token));
    BodyStopsAt(raw, at, token, token.body);
    SgrStopIsFirst(raw, at + 2);
    var stop := at + 2 + |token.body|;
    assert raw[at + (|token.body| + 2)] == Print(token)[|token.body| + 2] == token.final;
    forall k | 0 <= k < |token.body| ensures raw[at + 2 + k] == token.body[k] {
      assert raw[at + (k + 2)] == Print(token)[k + 2];
    }
    if IsBlankToken(token) {
      SgrStopsAt(raw, at + 2, stop);
    }
  }

  /** What a control does to the blankness of a row. */
  lemma ControlIsBlank(raw: Text, at: nat, token: Token, reader: Reader)
    requires StandsAt(raw, at, token, reader) && !token.Glyph?
    ensures raw[at] == ESC
    ensures BlankFrom(raw, at) <==> IsBlankToken(token) && BlankFrom(raw, at + |Print(token)|)
  {
    ControlIsRead(raw, at, token, reader);
    UnitsOf(raw, at, Print(token));
    if at + 1 < |raw| && raw[at + 1] == LEFT_BRACKET {
      assert |Print(token)| > 1 ==> raw[at + 1] == Print(token)[1];
      var sgr := SgrStop(raw, at + 2);
      SgrStopIsNoFinal(raw, at + 2);
      SgrStopIsFirst(raw, at + 2);
      if token.Csi? {
        CsiIsBlank(raw, at, token, reader);
      } else if token.CutCsi? {
        BodyStopsAt(raw, at, token, token.body);
      }
    } else if |Print(token)| > 1 {
      assert raw[at + 1] == Print(token)[1];
    }
  }

  /** A row is a blank separator exactly when all its tokens are blank. */
  lemma {:induction false} BlankRowIsBlankTokens(raw: Text, at: nat, tokens: seq<Token>, reader: Reader)
    requires AreTokensFrom(raw, at, tokens, reader)
    ensures BlankFrom(raw, at) <==> forall k :: 0 <= k < |tokens| ==> IsBlankToken(tokens[k])
    decreases |tokens|
  {
    hide StandsAt, IsBlankToken;
    if tokens != [] {
      var token := tokens[0];
      TokenStands(raw, at, token, reader);
      BlankRowIsBlankTokens(raw, at + |Print(token)|, tokens[1..], reader);
      GlyphIsBlank(token);
      if !token.Glyph? {
        ControlIsBlank(raw, at, token, reader);
      }
      assert (forall k :: 0 <= k < |tokens| ==> IsBlankToken(tokens[k])) <==>
             (IsBlankToken(token) && forall k :: 0 <= k < |tokens[1..]| ==> IsBlankToken(tokens[1..][k])) by {
        assert forall k :: 0 < k < |tokens| ==> tokens[k] == tokens[1..][k - 1];
      }
    }
  }

  lemma GlyphIsBlank(token: Token)
    ensures token.Glyph? ==> (IsBlankToken(token) <==> IsBlankCell(token.unit))
  {
  }
}
