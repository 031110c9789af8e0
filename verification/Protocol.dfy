/** Full and delta output frames of the mux protocol (core/src/protocol.ts): splitting output
    into lines, the delta that turns one base into the next, and the choice between the two. */
module Protocol {
  import opened Wrappers
  import opened Text

  /** The caret of a frame: no field at all, `null`, or a position. */
  datatype Cursor = Absent | Hidden | At(row: int, col: int)

  datatype Reset = Resize | Resync

  datatype Frame =
    | Output(channel: Text, data: Text, cursor: Cursor, reset: Option<Reset>)
    | Delta(channel: Text, baseLength: int, prefix: int, prefixHash: Text, lines: seq<Text>, cursor: Cursor)

  /** What the protocol takes from outside: a hash of lines, and the serialised size of a frame. */
  datatype Env = Env(hash: seq<Text> -> Text, size: Frame -> nat)

  // ---- Lines ----------------------------------------------------------------------------------

  /** `data.split("\n")`: one line more than there are newlines. */
  function Split(data: Text): (lines: seq<Text>)
    ensures |lines| > 0
  {
    if data == [] then [[]]
    else
      var rest := Split(data[1..]);
      if data[0] == NEWLINE then [[]] + rest else [[data[0]] + rest[0]] + rest[1..]
  }

  /** `lines.join("\n")`. */
  function Join(lines: seq<Text>): Text {
    if lines == [] then []
    else if |lines| == 1 then lines[0]
    else lines[0] + [NEWLINE] + Join(lines[1..])
  }

  /** Splitting loses nothing, a trailing empty line included. */
  lemma {:induction false} JoinUndoesSplit(data: Text)
    ensures Join(Split(data)) == data
  {
    if data != [] {
      JoinUndoesSplit(data[1..]);
      var rest := Split(data[1..]);
      if data[0] == NEWLINE {
        assert ([[]] + rest)[1..] == rest;
      } else {
        var lines := Split(data);
        assert lines[1..] == rest[1..];
        assert data == [data[0]] + data[1..];
      }
    }
  }

  lemma {:induction false} SplitHasNoNewlines(data: Text)
    ensures forall i :: 0 <= i < |Split(data)| ==> NEWLINE !in Split(data)[i]
  {
    if data != [] {
      SplitHasNoNewlines(data[1..]);
    }
  }

  lemma {:induction false} SplitOfLine(line: Text)
    requires NEWLINE !in line
    ensures Split(line) == [line]
  {
    if line != [] {
      SplitOfLine(line[1..]);
      assert [line[0]] + line[1..] == line;
    }
  }

  lemma {:induction false} SplitAtNewline(line: Text, rest: Text)
    requires NEWLINE !in line
    ensures Split(line + [NEWLINE] + rest) == [line] + Split(rest)
  {
    var data := line + [NEWLINE] + rest;
    if line == [] {
      assert data[1..] == rest;
    } else {
      SplitAtNewline(line[1..], rest);
      assert data[1..] == line[1..] + [NEWLINE] + rest;
      assert [line[0]] + line[1..] == line;
    }
  }

  /** Joining loses lines exactly when there are none, or when one holds a newline itself. */
  lemma {:induction false} SplitUndoesJoin(lines: seq<Text>)
    ensures Split(Join(lines)) == lines <==> |lines| > 0 && forall i :: 0 <= i < |lines| ==> NEWLINE !in lines[i]
  {
    SplitHasNoNewlines(Join(lines));
    if |lines| > 0 && forall i :: 0 <= i < |lines| ==> NEWLINE !in lines[i] {
      SplitOfJoinedLines(lines);
    }
  }

  lemma {:induction false} SplitOfJoinedLines(lines: seq<Text>)
    requires |lines| > 0 && forall i :: 0 <= i < |lines| ==> NEWLINE !in lines[i]
    ensures Split(Join(lines)) == lines
  {
    if |lines| == 1 {
      SplitOfLine(lines[0]);
    } else {
      SplitOfJoinedLines(lines[1..]);
      SplitAtNewline(lines[0], Join(lines[1..]));
    }
  }

  // ---- Deltas ---------------------------------------------------------------------------------

  /** How many leading lines the two have in common. */
  function CommonPrefix(base: seq<Text>, next: seq<Text>): (n: nat)
    ensures n <= |base| && n <= |next| && base[..n] == next[..n]
    ensures n == |base| || n == |next| || base[n] != next[n]
  {
    if base == [] || next == [] || base[0] != next[0] then 0 else 1 + CommonPrefix(base[1..], next[1..])
  }

  lemma CommonPrefixIsLargest(base: seq<Text>, next: seq<Text>, n: nat)
    requires n <= |base| && n <= |next| && base[..n] == next[..n]
    ensures n <= CommonPrefix(base, next)
  {
    forall i | 0 <= i < n ensures base[i] == next[i] {
      assert base[..n][i] == next[..n][i];
    }
  }

  method MuxCommonPrefixLength(base: seq<Text>, next: seq<Text>) returns (prefix: nat)
    ensures prefix == CommonPrefix(base, next)
  {
    var limit := if |base| < |next| then |base| else |next|;
    prefix := 0;
    while prefix < limit && base[prefix] == next[prefix]
      invariant prefix <= limit
      invariant forall i :: 0 <= i < prefix ==> base[i] == next[i]
    {
      prefix := prefix + 1;
    }
    assert base[..prefix] == next[..prefix];
    CommonPrefixIsLargest(base, next, prefix);
  }

  function CreateMuxDeltaFrame(env: Env, channel: Text, base: seq<Text>, next: seq<Text>, cursor: Cursor): Frame {
    var prefix := CommonPrefix(base, next);
    Delta(channel, |base|, prefix, env.hash(base[..prefix]), next[prefix..], cursor)
  }

  /** A caret on the wire: columns are never negative, rows may be. */
  predicate IsMuxCursor(cursor: Cursor) {
    cursor.At? ==> cursor.col >= 0
  }

  predicate ValidateMuxDeltaFrame(env: Env, frame: Frame, base: seq<Text>) {
    && frame.Delta?
    && frame.baseLength == |base|
    && 0 <= frame.prefix <= |base|
    && frame.prefixHash == env.hash(base[..frame.prefix])
    && IsMuxCursor(frame.cursor)
  }

  function ApplyMuxDelta(env: Env, base: seq<Text>, frame: Frame): (applied: Option<seq<Text>>) {
    if ValidateMuxDeltaFrame(env, frame, base) then Some(base[..frame.prefix] + frame.lines) else None
  }

  /** A delta turns its base into the next lines exactly when its caret is allowed on the wire. */
  lemma DeltaRebuildsNext(env: Env, channel: Text, base: seq<Text>, next: seq<Text>, cursor: Cursor)
    ensures ApplyMuxDelta(env, base, CreateMuxDeltaFrame(env, channel, base, next, cursor)) ==
            if IsMuxCursor(cursor) then Some(next) else None
  {
    var p := CommonPrefix(base, next);
    assert base[..p] + next[p..] == next;
  }

  /** No delta from this base to these lines carries fewer lines. */
  lemma DeltaIsShortest(env: Env, channel: Text, base: seq<Text>, next: seq<Text>, cursor: Cursor, other: Frame)
    requires ApplyMuxDelta(env, base, other) == Some(next)
    ensures |CreateMuxDeltaFrame(env, channel, base, next, cursor).lines| <= |other.lines|
  {
    var n := other.prefix;
    assert next == base[..n] + other.lines;
    assert next[..n] == base[..n];
    CommonPrefixIsLargest(base, next, n);
  }

  /** A delta made for one base fits another only if that has the same length, and a prefix with
      the same hash; the result then is right whenever the hash told those prefixes apart. */
  lemma DeltaOnOtherBase(env: Env, channel: Text, base: seq<Text>, next: seq<Text>, cursor: Cursor, other: seq<Text>)
    requires var prefix := CommonPrefix(base, next);
             prefix <= |other| && other[..prefix] != base[..prefix] ==>
                   env.hash(other[..prefix]) != env.hash(base[..prefix])
    ensures var applied := ApplyMuxDelta(env, other, CreateMuxDeltaFrame(env, channel, base, next, cursor));
            applied.None? || applied == Some(next)
  {
    var p := CommonPrefix(base, next);
    assert base[..p] + next[p..] == next;
  }

  // ---- Choosing the frame ---------------------------------------------------------------------

  predicate ShouldUseMuxDelta(env: Env, full: Frame, delta: Frame)
    requires full.Output? && delta.Delta?
  {
    full.reset.None? && delta.prefix > 0 && env.size(delta) < env.size(full)
  }

  function ChooseMuxOutputFrame(env: Env, full: Frame, base: seq<Text>): (chosen: Frame)
    requires full.Output?
    ensures env.size(chosen) <= env.size(full) && chosen.channel == full.channel
    ensures full.reset.Some? ==> chosen == full
  {
    var delta := CreateMuxDeltaFrame(env, full.channel, base, Split(full.data), full.cursor);
    if ShouldUseMuxDelta(env, full, delta) then delta else full
  }

  /** What a receiver makes of a frame: its lines, if the frame is good for the base. */
  function Received(env: Env, base: seq<Text>, frame: Frame): Option<seq<Text>> {
    if frame.Output? then Some(Split(frame.data)) else ApplyMuxDelta(env, base, frame)
  }

  /** Whatever the choice, the receiver ends with the sender's lines; only a delta with a
      negative column is lost. */
  lemma ChosenFrameIsReceived(env: Env, full: Frame, base: seq<Text>)
    requires full.Output?
    ensures var chosen := ChooseMuxOutputFrame(env, full, base);
            Received(env, base, chosen) == if chosen.Delta? && !IsMuxCursor(full.cursor) then None
                else Some(Split(full.data))
  {
    DeltaRebuildsNext(env, full.channel, base, Split(full.data), full.cursor);
  }
}
