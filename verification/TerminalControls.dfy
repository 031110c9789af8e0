/** Visible text of a terminal row (core/src/terminal-controls.ts), over the control grammar
    that the HTML renderer reads too: CSI sequences end at a byte of ECMA-48 section 5.4,
    OSC strings at BEL or ESC \, charset selectors take a third byte. */
module TerminalControls {
  import opened Text

  const BACKSLASH: Unit := 0x5c
  const LEFT_BRACKET: Unit := 0x5b
  const RIGHT_BRACKET: Unit := 0x5d
  const CHARSET: set<Unit> := {0x28, 0x29, 0x2a, 0x2b, 0x2d, 0x2e, 0x2f, 0x23, 0x25}

  predicate IsCsiFinal(u: Unit) {
    0x40 <= u <= 0x7e
  }

  // ---- The grammar ------------------------------------------------------------------------

  /** Where a CSI body that starts at `at` stops: a final byte, an ESC, or the end. */
  function CsiStop(raw: Text, at: nat): (stop: nat)
    requires at <= |raw|
    ensures at <= stop <= |raw|
    ensures stop < |raw| ==> raw[stop] == ESC || IsCsiFinal(raw[stop])
    ensures forall k :: at <= k < stop ==> raw[k] != ESC && !IsCsiFinal(raw[k])
    decreases |raw| - at
  {
    if at == |raw| || raw[at] == ESC || IsCsiFinal(raw[at]) then at else CsiStop(raw, at + 1)
  }

  predicate OscTerminatorAt(raw: Text, at: nat) {
    at < |raw| && (raw[at] == BEL || (raw[at] == ESC && at + 1 < |raw| && raw[at + 1] == BACKSLASH))
  }

  /** Where an OSC payload that starts at `at` stops: its terminator, or the end. */
  function OscStop(raw: Text, at: nat): (stop: nat)
    requires at <= |raw|
    ensures at <= stop <= |raw|
    ensures stop < |raw| ==> OscTerminatorAt(raw, stop)
    ensures forall k :: at <= k < stop ==> !OscTerminatorAt(raw, k)
    decreases |raw| - at
  {
    if at == |raw| || OscTerminatorAt(raw, at) then at else OscStop(raw, at + 1)
  }

  /** Where reading goes on behind an OSC payload that starts at `at`. */
  function OscEnd(raw: Text, at: nat): (end: nat)
    requires at <= |raw|
    ensures at <= end <= |raw|
  {
    var stop := OscStop(raw, at);
    if stop == |raw| then stop else if raw[stop] == BEL then stop + 1 else stop + 2
  }

  /** The two readers differ in one rule: whether an unknown two-byte control may swallow an
      ESC or the first half of a surrogate pair. */
  datatype Reader = Stripper | Renderer

  /** Where scanning resumes after the ESC at `at`. */
  function AfterControl(raw: Text, at: nat, reader: Reader): (next: nat)
    requires at < |raw| && raw[at] == ESC
    ensures at < next <= |raw|
  {
    if at + 1 == |raw| then
      |raw|
    else if raw[at + 1] == LEFT_BRACKET then
      var stop := CsiStop(raw, at + 2);
      if stop < |raw| && raw[stop] != ESC then stop + 1 else stop
    else if raw[at + 1] == RIGHT_BRACKET then
      OscEnd(raw, at + 2)
    else if raw[at + 1] in CHARSET then
      var third := at + 2;
      if third >= |raw| || raw[third] == ESC || IsSurrogatePairAt(raw, third) then third else third + 1
    else if reader.Renderer? && (raw[at + 1] == ESC || IsSurrogatePairAt(raw, at + 1)) then
      at + 1
    else
      at + 2
  }

  /** The offsets of the row, from `at` on, whose units are visible. */
  function VisibleFrom(raw: Text, at: nat, reader: Reader): (offsets: seq<nat>)
    ensures forall k :: 0 <= k < |offsets| ==> at <= offsets[k] < |raw| && raw[offsets[k]] != ESC
    decreases |raw| - at
  {
    if at >= |raw| then []
    else if raw[at] != ESC then [at] + VisibleFrom(raw, at + 1, reader)
    else VisibleFrom(raw, AfterControl(raw, at, reader), reader)
  }

  function Pick(raw: Text, offsets: seq<nat>): Text
    requires forall k :: 0 <= k < |offsets| ==> offsets[k] < |raw|
  {
    if offsets == [] then [] else [raw[offsets[0]]] + Pick(raw, offsets[1..])
  }

  function TextFrom(raw: Text, at: nat, reader: Reader): Text {
    Pick(raw, VisibleFrom(raw, at, reader))
  }

  function VisibleText(raw: Text, reader: Reader): Text {
    TextFrom(raw, 0, reader)
  }

  lemma TextUnfolds(raw: Text, at: nat, reader: Reader)
    requires at < |raw|
    ensures TextFrom(raw, at, reader) ==
            if raw[at] != ESC then [raw[at]] + TextFrom(raw, at + 1, reader)
            else TextFrom(raw, AfterControl(raw, at, reader), reader)
  {
    if raw[at] != ESC {
      var rest := VisibleFrom(raw, at + 1, reader);
      assert ([at] + rest)[1..] == rest;
    }
  }

  /** A row without ESC is all visible. */
  lemma {:induction false} PlainIsVisible(raw: Text, at: nat, reader: Reader)
    requires at <= |raw| && ESC !in raw
    ensures TextFrom(raw, at, reader) == raw[at..]
    decreases |raw| - at
  {
    if at < |raw| {
      assert raw[at] in raw;
      TextUnfolds(raw, at, reader);
      PlainIsVisible(raw, at + 1, reader);
      assert raw[at..] == [raw[at]] + raw[at + 1..];
    }
  }

  lemma {:induction false} NoEscIsVisible(raw: Text, at: nat, reader: Reader)
    ensures ESC !in TextFrom(raw, at, reader)
    decreases |raw| - at
  {
    if at < |raw| {
      TextUnfolds(raw, at, reader);
      NoEscIsVisible(raw, if raw[at] != ESC then at + 1 else AfterControl(raw, at, reader), reader);
    }
  }

  /** What stripping leaves has no control left in it: stripping again changes nothing. */
  lemma StripIsIdempotent(raw: Text)
    ensures VisibleText(VisibleText(raw, Stripper), Stripper) == VisibleText(raw, Stripper)
  {
    var text := VisibleText(raw, Stripper);
    NoEscIsVisible(raw, 0, Stripper);
    PlainIsVisible(text, 0, Stripper);
    assert text[0..] == text;
  }

  // ---- The stripper -----------------------------------------------------------------------

  method StripTerminalControls(raw: Text) returns (out: Text)
    ensures out == VisibleText(raw, Stripper)
  {
    if ESC !in raw {
      PlainIsVisible(raw, 0, Stripper);
      assert raw[0..] == raw;
      return raw;
    }
    out := [];
    var i := 0;
    while i < |raw|
      invariant 0 <= i <= |raw|
      invariant out + TextFrom(raw, i, Stripper) == VisibleText(raw, Stripper)
    {
      TextUnfolds(raw, i, Stripper);
      if raw[i] != ESC {
        AppendAssociates(out, raw[i], TextFrom(raw, i + 1, Stripper));
        out := out + [raw[i]];
        i := i + 1;
      } else {
        i := SkipControl(raw, i);
      }
    }
    assert out + [] == out;
  }

  lemma AppendAssociates(front: Text, u: Unit, back: Text)
    ensures (front + [u]) + back == front + ([u] + back)
  {
  }

  /** The branches of the stripper for one control. */
  method SkipControl(raw: Text, i: nat) returns (after: nat)
    requires i < |raw| && raw[i] == ESC
    ensures after == AfterControl(raw, i, Stripper)
  {
    if i + 1 >= |raw| { return |raw|; }
    var next := raw[i + 1];
    if next == LEFT_BRACKET {
      var end := i + 2;
      while end < |raw| && raw[end] != ESC && !IsCsiFinal(raw[end])
        invariant i + 2 <= end <= |raw|
        invariant CsiStop(raw, end) == CsiStop(raw, i + 2)
      {
        end := end + 1;
      }
      return if end < |raw| && raw[end] != ESC then end + 1 else end;
    }
    if next == RIGHT_BRACKET {
      var end := i + 2;
      while end < |raw| && !OscTerminatorAt(raw, end)
        invariant i + 2 <= end <= |raw|
        invariant OscStop(raw, end) == OscStop(raw, i + 2)
      {
        end := end + 1;
      }
      return if end == |raw| then end else if raw[end] == BEL then end + 1 else end + 2;
    }
    if next in CHARSET {
      var third := i + 2;
      if third >= |raw| || raw[third] == ESC || IsSurrogatePairAt(raw, third) {
        return third;
      }
      return i + 3;
    }
    // Known and unknown two-byte controls alike take their second unit.
    return i + 2;
  }

  // ---- Where the two readers agree -----------------------------------------------------------

  /** Scanning from `at`, no unknown control meets a surrogate pair, and a run of ESC that
      starts a control is odd, or ends the row, or stands before a surrogate pair. */
  predicate ReadersAgreeFrom(raw: Text, at: nat)
    decreases |raw| - at
  {
    if at >= |raw| then true
    else if raw[at] != ESC then ReadersAgreeFrom(raw, at + 1)
    else if at + 1 == |raw| then true
    else if raw[at + 1] == ESC then
      && (at + 2 == |raw| || raw[at + 2] == ESC || IsSurrogatePairAt(raw, at + 2))
      && ReadersAgreeFrom(raw, at + 2)
    else
      !IsSurrogatePairAt(raw, at + 1) && ReadersAgreeFrom(raw, AfterControl(raw, at, Stripper))
  }

  /** The two readers show the same units of the row, at the same places, exactly when
      `ReadersAgreeFrom` says so. `SameTextMeansSameUnits` is about the text that they show. */
  lemma {:induction false} ReadersAgree(raw: Text, at: nat)
    ensures VisibleFrom(raw, at, Stripper) == VisibleFrom(raw, at, Renderer) <==> ReadersAgreeFrom(raw, at)
    decreases |raw| - at
  {
    if at < |raw| {
      if raw[at] != ESC {
        ReadersAgree(raw, at + 1);
        assert VisibleFrom(raw, at, Stripper)[1..] == VisibleFrom(raw, at + 1, Stripper);
        assert VisibleFrom(raw, at, Renderer)[1..] == VisibleFrom(raw, at + 1, Renderer);
      } else if at + 1 < |raw| && raw[at + 1] == ESC {
        EscRun(raw, at);
        ReadersAgree(raw, at + 2);
      } else if IsSurrogatePairAt(raw, at + 1) {
        EscBeforePair(raw, at);
      } else {
        ReadersAgree(raw, AfterControl(raw, at, Stripper));
      }
    }
  }

  /** After ESC ESC: the stripper goes on behind both; the renderer rereads the second, and
      takes with it any unit the stripper would then show. */
  lemma EscRun(raw: Text, at: nat)
    requires at + 1 < |raw| && raw[at] == ESC && raw[at + 1] == ESC
    ensures VisibleFrom(raw, at, Stripper) == VisibleFrom(raw, at + 2, Stripper)
    ensures var ok := at + 2 == |raw| || raw[at + 2] == ESC || IsSurrogatePairAt(raw, at + 2);
            if ok then VisibleFrom(raw, at, Renderer) == VisibleFrom(raw, at + 2, Renderer)
            else VisibleFrom(raw, at, Renderer) != VisibleFrom(raw, at, Stripper)
  {
    assert VisibleFrom(raw, at, Renderer) == VisibleFrom(raw, at + 1, Renderer);
    RenderedSecondEsc(raw, at + 1);
  }

  lemma RenderedSecondEsc(raw: Text, at: nat)
    requires at < |raw| && raw[at] == ESC
    ensures var ok := at + 1 == |raw| || raw[at + 1] == ESC || IsSurrogatePairAt(raw, at + 1);
            if ok then VisibleFrom(raw, at, Renderer) == VisibleFrom(raw, at + 1, Renderer)
            else VisibleFrom(raw, at, Renderer) != VisibleFrom(raw, at + 1, Stripper)
  {
    var resume := AfterControl(raw, at, Renderer);
    assert VisibleFrom(raw, at, Renderer) == VisibleFrom(raw, resume, Renderer);
    if at + 1 < |raw| && raw[at + 1] != ESC && !IsSurrogatePairAt(raw, at + 1) {
      assert resume > at + 1;
      assert VisibleFrom(raw, at + 1, Stripper)[0] == at + 1;
    }
  }

  /** After ESC and a surrogate pair: the renderer shows the first half, the stripper does not. */
  lemma EscBeforePair(raw: Text, at: nat)
    requires at < |raw| && raw[at] == ESC && IsSurrogatePairAt(raw, at + 1)
    ensures VisibleFrom(raw, at, Stripper) != VisibleFrom(raw, at, Renderer)
  {
    assert AfterControl(raw, at, Renderer) == at + 1;
    assert VisibleFrom(raw, at + 1, Renderer)[0] == at + 1;
    assert AfterControl(raw, at, Stripper) == at + 2;
  }

  /** In particular they agree on any row where no ESC stands right before another ESC or a
      surrogate pair. */
  lemma {:induction false} ReadersAgreeOnOrdinaryRows(raw: Text, at: nat)
    requires forall k :: 0 <= k < |raw| - 1 && raw[k] == ESC ==> raw[k + 1] != ESC && !IsSurrogatePairAt(raw, k + 1)
    ensures ReadersAgreeFrom(raw, at)
    decreases |raw| - at
  {
    if at < |raw| {
      ReadersAgreeOnOrdinaryRows(raw, if raw[at] != ESC then at + 1 else AfterControl(raw, at, Stripper));
    }
  }

  /** Both failures are real: after ESC ESC the stripper shows `A` and the renderer nothing;
      after ESC and an emoji the renderer shows both halves and the stripper the second. */
  lemma ReadersCanDiffer()
    ensures Readings([ESC, ESC, 0x41], [2], [])
    ensures Readings([ESC, 0xd83d, 0xde00], [2], [1, 2])
  {
    EscEscDiffers();
    EscEmojiDiffers();
  }

  ghost predicate Readings(raw: Text, stripped: seq<nat>, rendered: seq<nat>) {
    VisibleFrom(raw, 0, Stripper) == stripped && VisibleFrom(raw, 0, Renderer) == rendered
  }

  lemma EscEscDiffers()
    ensures Readings([ESC, ESC, 0x41], [2], [])
  {
    var raw: Text := [ESC, ESC, 0x41];
    assert AfterControl(raw, 0, Stripper) == 2 && AfterControl(raw, 0, Renderer) == 1;
    assert AfterControl(raw, 1, Renderer) == 3;
    assert VisibleFrom(raw, 2, Stripper) == [2] + VisibleFrom(raw, 3, Stripper);
    assert VisibleFrom(raw, 1, Renderer) == VisibleFrom(raw, 3, Renderer);
  }

  lemma EscEmojiDiffers()
    ensures Readings([ESC, 0xd83d, 0xde00], [2], [1, 2])
  {
    var raw: Text := [ESC, 0xd83d, 0xde00];
    assert IsSurrogatePairAt(raw, 1);
    assert AfterControl(raw, 0, Stripper) == 2 && AfterControl(raw, 0, Renderer) == 1;
    assert VisibleFrom(raw, 2, Stripper) == [2] + VisibleFrom(raw, 3, Stripper);
    assert VisibleFrom(raw, 2, Renderer) == [2] + VisibleFrom(raw, 3, Renderer);
    assert VisibleFrom(raw, 1, Renderer) == [1] + VisibleFrom(raw, 2, Renderer);
  }

  // ---- The same text ------------------------------------------------------------------------

  /** Every half of a surrogate pair stands with its other half, as in all decoded text. */
  predicate IsWhole(text: Text) {
    if text == [] then true
    else if IsHighSurrogate(text[0]) then |text| > 1 && IsLowSurrogate(text[1]) && IsWhole(text[2..])
    else !IsLowSurrogate(text[0]) && IsWhole(text[1..])
  }

  /** No CSI body holds a BEL; ECMA-48 section 5.4 allows none. */
  ghost predicate NoBelInCsi(raw: Text) {
    forall k, j ::
      0 <= k && k + 2 <= j < |raw| && raw[k] == ESC && raw[k + 1] == LEFT_BRACKET && j < CsiStop(raw, k + 2) ==>
        raw[j] != BEL
  }

  /** What stands behind a unit that is no first half is whole too. */
  lemma {:induction false} WholeBehind(raw: Text, at: nat, end: nat)
    requires at < end <= |raw| && IsWhole(raw[at..]) && !IsHighSurrogate(raw[end - 1])
    ensures IsWhole(raw[end..])
    decreases end - at
  {
    var step := if IsHighSurrogate(raw[at]) then 2 else 1;
    assert raw[at..][0] == raw[at] && raw[at..][step..] == raw[at + step..];
    if at + step < end {
      WholeBehind(raw, at + step, end);
    }
  }

  /** Scanning from `at`, the stripper reads an ESC right before a surrogate pair. */
  predicate EscMeetsPairFrom(raw: Text, at: nat)
    decreases |raw| - at
  {
    at < |raw|
    && if raw[at] != ESC then EscMeetsPairFrom(raw, at + 1)
       else IsSurrogatePairAt(raw, at + 1) || EscMeetsPairFrom(raw, AfterControl(raw, at, Stripper))
  }

  /** No control but the stripper's on a pair, and none of the renderer's, takes a first half
      as its last unit, if all pairs are whole. */
  lemma ControlEndsWhole(raw: Text, at: nat, reader: Reader)
    requires at < |raw| && raw[at] == ESC && IsWhole(raw[at..])
    requires reader.Renderer? || !IsSurrogatePairAt(raw, at + 1)
    ensures IsWhole(raw[AfterControl(raw, at, reader)..])
  {
    var next := AfterControl(raw, at, reader);
    HighStartsPair(raw, at, next - 1);
    WholeBehind(raw, at, next);
  }

  lemma {:induction false} HighStartsPair(raw: Text, at: nat, k: nat)
    requires at <= k < |raw| && IsWhole(raw[at..])
    ensures IsHighSurrogate(raw[k]) ==> IsSurrogatePairAt(raw, k)
    decreases k - at
  {
    var step := if IsHighSurrogate(raw[at]) then 2 else 1;
    assert raw[at..][0] == raw[at] && raw[at..][step..] == raw[at + step..];
    assert step == 2 ==> raw[at..][1] == raw[at + 1];
    if at + step <= k {
      HighStartsPair(raw, at + step, k);
    }
  }

  lemma WholeInFront(u: Unit, rest: Text)
    ensures IsLowSurrogate(u) ==> !IsWhole([u] + rest)
    ensures !IsLowSurrogate(u) && !IsHighSurrogate(u) ==> (IsWhole([u] + rest) <==> IsWhole(rest))
  {
    assert ([u] + rest)[1..] == rest;
  }

  lemma PairInFront(high: Unit, low: Unit, rest: Text)
    requires IsHighSurrogate(high) && IsLowSurrogate(low)
    ensures IsWhole([high] + ([low] + rest)) <==> IsWhole(rest)
  {
    assert ([high] + ([low] + rest))[2..] == rest;
  }

  /** In a row of whole pairs, what the renderer shows is whole, and what the stripper shows is
      whole exactly when it reads no ESC before a pair. */
  lemma {:induction false} ShownPairsAreWhole(raw: Text, at: nat, reader: Reader)
    requires at <= |raw| && IsWhole(raw[at..])
    ensures IsWhole(TextFrom(raw, at, reader)) <==> reader.Renderer? || !EscMeetsPairFrom(raw, at)
    decreases |raw| - at
  {
    hide AfterControl, TextFrom;
    if at == |raw| {
      NothingIsShown(raw, reader);
    } else {
      TextUnfolds(raw, at, reader);
      var here := raw[at..];
      assert here[0] == raw[at] && here[1..] == raw[at + 1..];
      if raw[at] == ESC {
        EscIsWhole(raw, at, reader);
        if reader.Renderer? || !IsSurrogatePairAt(raw, at + 1) {
          ShownPairsAreWhole(raw, AfterControl(raw, at, reader), reader);
        }
      } else if IsHighSurrogate(raw[at]) {
        assert here[1] == raw[at + 1] && here[2..] == raw[at + 2..];
        TextUnfolds(raw, at + 1, reader);
        ShownPairsAreWhole(raw, at + 2, reader);
        PairInFront(raw[at], raw[at + 1], TextFrom(raw, at + 2, reader));
      } else {
        ShownPairsAreWhole(raw, at + 1, reader);
        WholeInFront(raw[at], TextFrom(raw, at + 1, reader));
      }
    }
  }

  lemma NothingIsShown(raw: Text, reader: Reader)
    ensures TextFrom(raw, |raw|, reader) == []
  {
  }

  /** After an ESC: either the stripper shows a second half alone, or reading goes on between
      code points. */
  lemma EscIsWhole(raw: Text, at: nat, reader: Reader)
    requires at < |raw| && raw[at] == ESC && IsWhole(raw[at..])
    ensures reader.Stripper? && IsSurrogatePairAt(raw, at + 1) ==>
              !IsWhole(TextFrom(raw, AfterControl(raw, at, reader), reader))
    ensures reader.Renderer? || !IsSurrogatePairAt(raw, at + 1) ==> IsWhole(raw[AfterControl(raw, at, reader)..])
  {
    hide TextFrom, IsWhole;
    if reader.Stripper? && IsSurrogatePairAt(raw, at + 1) {
      TextUnfolds(raw, at + 2, reader);
      WholeInFront(raw[at + 2], TextFrom(raw, at + 3, reader));
    } else {
      hide AfterControl;
      ControlEndsWhole(raw, at, reader);
    }
  }

  /** A stretch without ESC is shown as it is. */
  lemma {:induction false} StretchIsShown(raw: Text, at: nat, end: nat)
    requires at <= end <= |raw| && forall k :: at <= k < end ==> raw[k] != ESC
    ensures |TextFrom(raw, at, Stripper)| == end - at + |TextFrom(raw, end, Stripper)|
    ensures EscMeetsPairFrom(raw, at) <==> EscMeetsPairFrom(raw, end)
    decreases end - at
  {
    hide AfterControl, TextFrom;
    if at < end {
      TextUnfolds(raw, at, Stripper);
      StretchIsShown(raw, at + 1, end);
    }
  }

  lemma {:induction false} StopStays(raw: Text, at: nat, later: nat)
    requires at <= |raw| && at <= later <= OscStop(raw, at)
    ensures OscStop(raw, later) == OscStop(raw, at)
    decreases later - at
  {
    if at < later {
      StopStays(raw, at + 1, later);
    }
  }

  function StripperStep(raw: Text, at: nat): (next: nat)
    requires at < |raw|
    ensures at < next <= |raw|
  {
    if raw[at] != ESC then at + 1 else AfterControl(raw, at, Stripper)
  }

  /** A step of the stripper stays in an OSC payload, or goes behind its terminator, or stops
      between the two units of an `ESC \`. */
  lemma StepInPayload(raw: Text, at: nat)
    requires NoBelInCsi(raw) && at < |raw|
    ensures var stop, next := OscStop(raw, at), StripperStep(raw, at);
            || next <= stop || next == OscEnd(raw, at)
            || (next == stop + 1 < |raw| && raw[next] == BACKSLASH && OscEnd(raw, at) == next + 1)
  {
    var stop := OscStop(raw, at);
    if raw[at] == ESC && stop > at && at + 1 < |raw| {
      if raw[at + 1] == LEFT_BRACKET {
        assert CsiStop(raw, at + 2) <= stop;
      } else if raw[at + 1] == RIGHT_BRACKET {
        StopStays(raw, at, at + 2);
      }
    }
  }

  /** From inside an OSC payload, the stripper reaches the place behind the terminator. */
  lemma {:induction false} PayloadIsLeft(raw: Text, at: nat)
    requires NoBelInCsi(raw) && at <= |raw|
    ensures |TextFrom(raw, at, Stripper)| >= |TextFrom(raw, OscEnd(raw, at), Stripper)|
    ensures EscMeetsPairFrom(raw, OscEnd(raw, at)) ==> EscMeetsPairFrom(raw, at)
    decreases |raw| - at
  {
    hide AfterControl, TextFrom, NoBelInCsi;
    if at < |raw| {
      TextUnfolds(raw, at, Stripper);
      StepInPayload(raw, at);
      var stop, next := OscStop(raw, at), StripperStep(raw, at);
      if next <= stop {
        StopStays(raw, at, next);
        PayloadIsLeft(raw, next);
      } else if next != OscEnd(raw, at) {
        TextUnfolds(raw, next, Stripper);
      }
    }
  }

  /** Where the renderer rereads a second ESC and the stripper goes on behind it: the control
      that only the renderer sees is text to the stripper. */
  lemma SecondEscShowsLess(raw: Text, at: nat)
    requires NoBelInCsi(raw) && at < |raw| && raw[at] == ESC && !EscMeetsPairFrom(raw, at + 1)
    ensures var end := AfterControl(raw, at, Renderer);
            if at + 1 == |raw| || raw[at + 1] == ESC || IsSurrogatePairAt(raw, at + 1) then end == at + 1
            else |TextFrom(raw, at + 1, Stripper)| > |TextFrom(raw, end, Stripper)| && !EscMeetsPairFrom(raw, end)
  {
    hide TextFrom, NoBelInCsi;
    var end := AfterControl(raw, at, Renderer);
    if at + 1 < |raw| && raw[at + 1] != ESC && !IsSurrogatePairAt(raw, at + 1) {
      if raw[at + 1] == RIGHT_BRACKET {
        StretchIsShown(raw, at + 1, at + 2);
        PayloadIsLeft(raw, at + 2);
      } else {
        StretchIsShown(raw, at + 1, end);
      }
    }
  }

  /** Without an ESC before a pair, the stripper never shows less than the renderer, and shows
      as much only where both show the same units. */
  lemma {:induction false} StripperShowsNoLess(raw: Text, at: nat)
    requires NoBelInCsi(raw) && !EscMeetsPairFrom(raw, at)
    ensures |TextFrom(raw, at, Stripper)| >= |TextFrom(raw, at, Renderer)|
    ensures |TextFrom(raw, at, Stripper)| == |TextFrom(raw, at, Renderer)| ==> ReadersAgreeFrom(raw, at)
    decreases |raw| - at
  {
    hide TextFrom, NoBelInCsi, AfterControl;
    if at < |raw| {
      TextUnfolds(raw, at, Stripper);
      TextUnfolds(raw, at, Renderer);
      if raw[at] != ESC {
        StripperShowsNoLess(raw, at + 1);
      } else if at + 1 < |raw| && raw[at + 1] == ESC {
        BehindTwoEsc(raw, at);
        TextUnfolds(raw, at + 1, Renderer);
        SecondEscShowsLess(raw, at + 1);
        StripperShowsNoLess(raw, AfterControl(raw, at + 1, Renderer));
      } else {
        SameControl(raw, at);
        StripperShowsNoLess(raw, AfterControl(raw, at, Stripper));
      }
    }
    if at >= |raw| {
      BothAreEmpty(raw, at);
    }
  }

  lemma BothAreEmpty(raw: Text, at: nat)
    requires at >= |raw|
    ensures TextFrom(raw, at, Stripper) == [] && TextFrom(raw, at, Renderer) == [] && ReadersAgreeFrom(raw, at)
  {
  }

  lemma BehindTwoEsc(raw: Text, at: nat)
    requires at + 1 < |raw| && raw[at] == ESC && raw[at + 1] == ESC
    ensures AfterControl(raw, at, Stripper) == at + 2 && AfterControl(raw, at, Renderer) == at + 1
  {
  }

  lemma SameControl(raw: Text, at: nat)
    requires at < |raw| && raw[at] == ESC && (at + 1 == |raw| || raw[at + 1] != ESC) && !IsSurrogatePairAt(raw, at + 1)
    ensures AfterControl(raw, at, Stripper) == AfterControl(raw, at, Renderer)
    ensures at + 1 == |raw| ==> AfterControl(raw, at, Stripper) == |raw|
  {
  }

  /** The text itself: in a row of whole pairs and with no BEL inside a CSI, the two readers
      show the same text exactly when they show the same units. */
  lemma SameTextMeansSameUnits(raw: Text)
    requires IsWhole(raw) && NoBelInCsi(raw)
    ensures VisibleText(raw, Stripper) == VisibleText(raw, Renderer) <==> ReadersAgreeFrom(raw, 0)
  {
    ReadersAgree(raw, 0);
    if VisibleText(raw, Stripper) == VisibleText(raw, Renderer) {
      assert raw[0..] == raw;
      ShownPairsAreWhole(raw, 0, Stripper);
      ShownPairsAreWhole(raw, 0, Renderer);
      StripperShowsNoLess(raw, 0);
    }
  }

  /** Neither hypothesis of `SameTextMeansSameUnits` can go: with a BEL inside a CSI both readers
      show one `]`, but not the same one; with a lone first half, both show one whole emoji, of
      different units. */
  lemma SameTextOfOtherUnits()
    ensures var raw: Text := [ESC, ESC, RIGHT_BRACKET, ESC, LEFT_BRACKET, BEL, RIGHT_BRACKET];
            IsWhole(raw) && Readings(raw, [2], [6]) && VisibleText(raw, Stripper) == VisibleText(raw, Renderer)
    ensures var raw: Text := [ESC, ESC, 0xd83d, ESC, 0xd83d, 0xde00];
            NoBelInCsi(raw) && Readings(raw, [2, 5], [4, 5]) && VisibleText(raw, Stripper) == VisibleText(raw, Renderer)
  {
    BelInCsiHidesDifference();
    LoneHalfHidesDifference();
  }

  lemma BelInCsiHidesDifference()
    ensures var raw: Text := [ESC, ESC, RIGHT_BRACKET, ESC, LEFT_BRACKET, BEL, RIGHT_BRACKET];
            IsWhole(raw) && Readings(raw, [2], [6]) && VisibleText(raw, Stripper) == VisibleText(raw, Renderer)
  {
    var raw: Text := [ESC, ESC, RIGHT_BRACKET, ESC, LEFT_BRACKET, BEL, RIGHT_BRACKET];
    NoSurrogatesAreWhole(raw);
    assert CsiStop(raw, 6) == 6 && CsiStop(raw, 5) == 6;
    assert AfterControl(raw, 0, Stripper) == 2 && AfterControl(raw, 3, Stripper) == 7;
    assert OscStop(raw, 5) == 5 && OscStop(raw, 4) == 5 && OscStop(raw, 3) == 5;
    assert AfterControl(raw, 0, Renderer) == 1 && AfterControl(raw, 1, Renderer) == 6;
    ShowsFrom(raw, 2, Stripper);
    ShowsFrom(raw, 6, Renderer);
    assert VisibleFrom(raw, 3, Stripper) == [] && VisibleFrom(raw, 1, Renderer) == VisibleFrom(raw, 6, Renderer);
    PickOne(raw, 2);
    PickOne(raw, 6);
  }

  lemma LoneHalfHidesDifference()
    ensures var raw: Text := [ESC, ESC, 0xd83d, ESC, 0xd83d, 0xde00];
            NoBelInCsi(raw) && Readings(raw, [2, 5], [4, 5]) && VisibleText(raw, Stripper) == VisibleText(raw, Renderer)
  {
    var raw: Text := [ESC, ESC, 0xd83d, ESC, 0xd83d, 0xde00];
    assert IsSurrogatePairAt(raw, 4) && !IsSurrogatePairAt(raw, 2);
    assert AfterControl(raw, 0, Stripper) == 2 && AfterControl(raw, 3, Stripper) == 5;
    assert AfterControl(raw, 0, Renderer) == 1 && AfterControl(raw, 1, Renderer) == 3
        && AfterControl(raw, 3, Renderer) == 4;
    ShowsFrom(raw, 5, Stripper);
    ShowsFrom(raw, 2, Stripper);
    assert VisibleFrom(raw, 3, Stripper) == [5];
    ShowsFrom(raw, 5, Renderer);
    ShowsFrom(raw, 4, Renderer);
    assert VisibleFrom(raw, 1, Renderer) == VisibleFrom(raw, 3, Renderer) == [4, 5];
    PickTwo(raw, 2, 5);
    PickTwo(raw, 4, 5);
  }

  lemma ShowsFrom(raw: Text, at: nat, reader: Reader)
    requires at < |raw| && raw[at] != ESC
    ensures VisibleFrom(raw, at, reader) == [at] + VisibleFrom(raw, at + 1, reader)
    ensures VisibleFrom(raw, |raw|, reader) == []
  {
  }

  lemma PickOne(raw: Text, i: nat)
    requires i < |raw|
    ensures Pick(raw, [i]) == [raw[i]]
  {
    assert [i][1..] == [];
  }

  lemma PickTwo(raw: Text, i: nat, j: nat)
    requires i < |raw| && j < |raw|
    ensures Pick(raw, [i, j]) == [raw[i], raw[j]]
  {
    assert [i, j][1..] == [j];
    PickOne(raw, j);
  }

  lemma {:induction false} NoSurrogatesAreWhole(text: Text)
    requires forall k :: 0 <= k < |text| ==> !IsHighSurrogate(text[k]) && !IsLowSurrogate(text[k])
    ensures IsWhole(text)
  {
    if text != [] {
      NoSurrogatesAreWhole(text[1..]);
    }
  }

  // ---- Blank separators ---------------------------------------------------------------------

  const SPACE: Unit := 0x20
  const TAB: Unit := 0x09
  const NBSP: Unit := 0xa0
  const LETTER_M: Unit := 0x6d

  predicate IsBlankCell(u: Unit) {
    u == SPACE || u == TAB || u == NBSP
  }

  /** Units that may stand in SGR parameters: digits, `:` and `;`. */
  predicate IsSgrParameter(u: Unit) {
    0x30 <= u <= 0x3b
  }

  function SgrStop(raw: Text, at: nat): (stop: nat)
    requires at <= |raw|
    ensures at <= stop <= |raw|
    decreases |raw| - at
  {
    if at < |raw| && IsSgrParameter(raw[at]) then SgrStop(raw, at + 1) else at
  }

  /** From `at` on, the row is blank cells and complete SGR paint only. */
  predicate BlankFrom(raw: Text, at: nat)
    decreases |raw| - at
  {
    if at >= |raw| then true
    else if raw[at] != ESC then IsBlankCell(raw[at]) && BlankFrom(raw, at + 1)
    else
      && at + 1 < |raw| && raw[at + 1] == LEFT_BRACKET
      && var stop := SgrStop(raw, at + 2);
         stop < |raw| && raw[stop] == LETTER_M && BlankFrom(raw, stop + 1)
  }

  predicate IsBlankRow(raw: Text) {
    BlankFrom(raw, 0)
  }

  method IsBlankToolSeparator(raw: Text) returns (blank: bool)
    ensures blank <==> IsBlankRow(raw)
  {
    var index := 0;
    while index < |raw|
      invariant 0 <= index <= |raw|
      invariant BlankFrom(raw, index) <==> IsBlankRow(raw)
    {
      if raw[index] != ESC {
        if !IsBlankCell(raw[index]) { return false; }
        index := index + 1;
        continue;
      }
      if index + 1 >= |raw| || raw[index + 1] != LEFT_BRACKET { return false; }
      var end := index + 2;
      while end < |raw| && IsSgrParameter(raw[end])
        invariant index + 2 <= end <= |raw|
        invariant SgrStop(raw, end) == SgrStop(raw, index + 2)
      {
        end := end + 1;
      }
      if end >= |raw| || raw[end] != LETTER_M { return false; }
      index := end + 1;
    }
    return true;
  }

  lemma {:induction false} SgrStopIsNoFinal(raw: Text, at: nat)
    requires at <= |raw|
    ensures var stop := SgrStop(raw, at);
            stop < |raw| && raw[stop] == LETTER_M ==> CsiStop(raw, at) == stop
    decreases |raw| - at
  {
    if at < |raw| && IsSgrParameter(raw[at]) {
      SgrStopIsNoFinal(raw, at + 1);
    }
  }

  /** A blank separator shows nothing but blank cells, to either reader. */
  lemma {:induction false} BlankRowShowsBlanks(raw: Text, at: nat, reader: Reader)
    requires BlankFrom(raw, at)
    ensures forall k :: k in VisibleFrom(raw, at, reader) ==> IsBlankCell(raw[k])
    decreases |raw| - at
  {
    if at < |raw| {
      if raw[at] != ESC {
        BlankRowShowsBlanks(raw, at + 1, reader);
      } else {
        SgrStopIsNoFinal(raw, at + 2);
        BlankRowShowsBlanks(raw, AfterControl(raw, at, reader), reader);
      }
    }
  }
}
