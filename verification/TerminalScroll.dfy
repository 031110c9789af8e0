/** Capture merging (core/src/terminal-scroll.ts): the largest overlap between the end of
    one capture and the start of the next, found by a budgeted descending scan that can
    give up into a Knuth-Morris-Pratt automaton, and the merge that relies on it. */
module TerminalScroll {
  import opened Text

  // ---- What an overlap is -------------------------------------------------------------

  /** The last `k` rows of `previous` are the first `k` rows of `next`. */
  ghost predicate IsOverlap(previous: seq<Text>, next: seq<Text>, k: int) {
    0 <= k <= |previous| && k <= |next| && previous[|previous| - k..] == next[..k]
  }

  ghost predicate IsLargestOverlap(previous: seq<Text>, next: seq<Text>, k: int) {
    IsOverlap(previous, next, k) && forall j :: IsOverlap(previous, next, j) ==> j <= k
  }

  /** `k` rows (fewer than all `n` of them) both start and end the first `n` rows of `p`. */
  ghost predicate IsBorder(p: seq<Text>, n: int, k: int) {
    0 <= k < n <= |p| && p[n - k..n] == p[..k]
  }

  ghost predicate IsLongestBorder(p: seq<Text>, n: int, k: int) {
    IsBorder(p, n, k) && forall j :: IsBorder(p, n, j) ==> j <= k
  }

  /** `pi[i]` is the longest border of the first `i + 1` rows. */
  ghost predicate IsFailureFunction(p: seq<Text>, pi: seq<nat>) {
    |pi| <= |p| && forall i :: 0 <= i < |pi| ==> IsLongestBorder(p, i + 1, pi[i])
  }

  // ---- Facts behind the automaton -----------------------------------------------------

  /** Two overlaps of the same capture nest: the shorter is a border of the longer. */
  lemma OverlapsNest(previous: seq<Text>, next: seq<Text>, long: int, short: int)
    requires IsOverlap(previous, next, long) && 0 <= short < long
    ensures IsOverlap(previous, next, short) <==> IsBorder(next, long, short)
  {
    var n := |previous|;
    assert previous[n - short..] == previous[n - long..][long - short..];
    assert next[..long][long - short..] == next[long - short..long];
  }

  /** An overlap that grows by one row extends an overlap of the shorter capture. */
  lemma OverlapStep(previous: seq<Text>, row: Text, next: seq<Text>, k: int)
    requires 0 < k
    ensures IsOverlap(previous + [row], next, k) <==>
            IsOverlap(previous, next, k - 1) && k <= |next| && next[k - 1] == row
  {
    var grown := previous + [row];
    if k <= |next| && k <= |grown| {
      assert grown[|grown| - k..] == previous[|previous| - (k - 1)..] + [row];
      assert next[..k] == next[..k - 1] + [next[k - 1]];
    }
  }

  /** A border of a prefix is an overlap of that prefix, without its first row, with the whole. */
  lemma BorderIsOverlap(p: seq<Text>, n: int, k: int)
    requires 0 < n <= |p|
    ensures IsBorder(p, n, k) <==> IsOverlap(p[1..n], p, k)
  {
    if 0 <= k < n {
      assert p[1..n][n - 1 - k..] == p[n - k..n];
    }
  }

  /** `bound` limits what the next row can reach: no overlap of `previous + [row]` is longer
      than `bound + 1`. */
  ghost predicate Bounds(previous: seq<Text>, row: Text, next: seq<Text>, bound: int) {
    forall j :: IsOverlap(previous + [row], next, j) ==> j <= bound + 1
  }

  /** From the largest overlap so far, one more row reaches at most one further. */
  lemma LargestBounds(previous: seq<Text>, row: Text, next: seq<Text>, state: int)
    requires IsLargestOverlap(previous, next, state)
    ensures Bounds(previous, row, next, state)
  {
    forall j | IsOverlap(previous + [row], next, j) ensures j <= state + 1 {
      if j > 0 {
        OverlapStep(previous, row, next, j);
      }
    }
  }

  /** Falling back through the failure function loses no candidate: if the row does not
      extend `state`, the longest border of `state` still bounds every extension. */
  lemma FallBack(previous: seq<Text>, row: Text, next: seq<Text>, state: int, border: int)
    requires IsOverlap(previous, next, state) && IsLongestBorder(next, state, border)
    requires Bounds(previous, row, next, state)
    requires state == |next| || next[state] != row
    ensures IsOverlap(previous, next, border) && Bounds(previous, row, next, border)
  {
    OverlapsNest(previous, next, state, border);
    forall j | IsOverlap(previous + [row], next, j) ensures j <= border + 1 {
      if j > 0 {
        OverlapStep(previous, row, next, j);
        if j - 1 < state {
          OverlapsNest(previous, next, state, j - 1);
        }
      }
    }
  }

  /** The step that ends the falling back: the new largest overlap. */
  lemma Settle(previous: seq<Text>, row: Text, next: seq<Text>, state: int)
    requires state < |next| && IsOverlap(previous, next, state) && Bounds(previous, row, next, state)
    requires next[state] == row || state == 0
    ensures IsLargestOverlap(previous + [row], next, if next[state] == row then state + 1 else state)
  {
    OverlapStep(previous, row, next, state + 1);
  }

  // ---- The linear fallback -----------------------------------------------------------

  /** The interning map gives equal ids exactly to equal rows. */
  ghost predicate Interns(ids: map<Text, nat>, rows: seq<Text>, pattern: seq<int>) {
    && |pattern| == |rows|
    && (forall i :: 0 <= i < |rows| ==> rows[i] in ids && ids[rows[i]] == pattern[i])
    && (forall a, b :: a in ids && b in ids && ids[a] == ids[b] ==> a == b)
  }

  /** Rows compared by id (with -1 for a row never interned) are rows compared by content. */
  lemma IdsCompare(ids: map<Text, nat>, rows: seq<Text>, pattern: seq<int>, i: nat, row: Text)
    requires Interns(ids, rows, pattern) && i < |rows|
    ensures pattern[i] == (if row in ids then ids[row] else -1) <==> rows[i] == row
  {
  }

  method InternRows(next: seq<Text>, pattern: array<int>) returns (idByLine: map<Text, nat>)
    requires pattern.Length == |next|
    modifies pattern
    ensures Interns(idByLine, next, pattern[..])
  {
    idByLine := map[];
    var nextId: nat := 0;
    for i := 0 to |next|
      invariant forall a :: a in idByLine ==> idByLine[a] < nextId
      invariant Interns(idByLine, next[..i], pattern[..i])
    {
      var line := next[i];
      if line !in idByLine {
        idByLine := idByLine[line := nextId];
        nextId := nextId + 1;
      }
      pattern[i] := idByLine[line];
      assert pattern[..i + 1] == pattern[..i] + [pattern[i]];
    }
    assert next[..|next|] == next && pattern[..|next|] == pattern[..];
  }

  method PrefixFunction(next: seq<Text>, ghost ids: map<Text, nat>, pattern: array<int>) returns (pi: array<nat>)
    requires |next| > 0 && Interns(ids, next, pattern[..])
    ensures fresh(pi) && pi.Length == |next| && IsFailureFunction(next, pi[..])
  {
    var m := |next|;
    pi := new nat[m];
    pi[0] := 0;
    var i, len := 1, 0;
    while i < m
      invariant pattern[..] == old(pattern[..])
      invariant 1 <= i <= m && 0 <= len < i
      invariant Scanned(next, pi[..i], len)
      decreases m - i, len
    {
      SameId(ids, next, pattern[..], i, len);
      ghost var done := pi[..i];
      if pattern[i] == pattern[len] {
        ScanSettles(next, done, len);
        len := len + 1;
        pi[i] := len;
        i := i + 1;
        assert pi[..i] == done + [len];
      } else if len > 0 {
        ScanFallsBack(next, done, len);
        len := pi[len - 1];
      } else {
        ScanSettles(next, done, len);
        pi[i] := 0;
        i := i + 1;
        assert pi[..i] == done + [0];
      }
    }
    assert pi[..m] == pi[..];
  }

  lemma SameId(ids: map<Text, nat>, rows: seq<Text>, pattern: seq<int>, i: nat, j: nat)
    requires Interns(ids, rows, pattern) && i < |rows| && j < |rows|
    ensures pattern[i] == pattern[j] <==> rows[i] == rows[j]
  {
  }

  /** What the scan knows after `done`: the failure function so far, and a border `len` that
      bounds the next entry. */
  ghost predicate Scanned(p: seq<Text>, done: seq<nat>, len: int) {
    && 0 <= len < |done| <= |p|
    && IsFailureFunction(p, done)
    && IsOverlap(p[1..|done|], p, len)
    && (|done| < |p| ==> Bounds(p[1..|done|], p[|done|], p, len))
  }

  lemma ScanSettles(p: seq<Text>, done: seq<nat>, len: nat)
    requires Scanned(p, done, len) && |done| < |p|
    requires p[len] == p[|done|] || len == 0
    ensures var k: nat := if p[len] == p[|done|] then len + 1 else 0; Scanned(p, done + [k], k)
  {
    BorderSettled(p, |done|, len);
  }

  lemma ScanFallsBack(p: seq<Text>, done: seq<nat>, len: nat)
    requires Scanned(p, done, len) && |done| < |p|
    requires p[len] != p[|done|] && len > 0
    ensures Scanned(p, done, done[len - 1])
  {
    FallBack(p[1..|done|], p[|done|], p, len, done[len - 1]);
  }

  /** The automaton run over `p` without its first row computes the borders of `p`. */
  lemma BorderSettled(p: seq<Text>, i: nat, len: nat)
    requires 0 < i < |p| && len < i
    requires IsOverlap(p[1..i], p, len) && Bounds(p[1..i], p[i], p, len)
    requires p[len] == p[i] || len == 0
    ensures var k := if p[len] == p[i] then len + 1 else 0;
            && IsLongestBorder(p, i + 1, k)
            && IsOverlap(p[1..i + 1], p, k)
            && (i + 1 < |p| ==> Bounds(p[1..i + 1], p[i + 1], p, k))
  {
    var k := if p[len] == p[i] then len + 1 else 0;
    var n := i + 1;
    Settle(p[1..i], p[i], p, len);
    assert p[1..n] == p[1..i] + [p[i]];
    forall j ensures IsBorder(p, n, j) <==> IsOverlap(p[1..n], p, j) {
      BorderIsOverlap(p, n, j);
    }
    if n < |p| {
      LargestBounds(p[1..n], p[n], p, k);
    }
  }

  /** One automaton step: the largest overlap after one more row of the old capture. */
  method ConsumeRow(ghost before: seq<Text>, row: Text, ghost next: seq<Text>,
                    idByLine: map<Text, nat>, pattern: array<int>, pi: array<nat>, from: nat) returns (state: nat)
    requires |next| == pattern.Length == pi.Length > 0
    requires Interns(idByLine, next, pattern[..]) && IsFailureFunction(next, pi[..])
    requires IsLargestOverlap(before, next, from)
    ensures IsLargestOverlap(before + [row], next, state)
  {
    state := from;
    LargestBounds(before, row, next, state);
    ghost var interned, failure := pattern[..], pi[..];
    if state == pattern.Length {
      assert failure[state - 1] == pi[state - 1];
      FallBack(before, row, next, state, pi[state - 1]);
      state := pi[state - 1];
    }
    var id := if row in idByLine then idByLine[row] else -1;
    while state > 0 && pattern[state] != id
      invariant state < pattern.Length
      invariant IsOverlap(before, next, state) && Bounds(before, row, next, state)
    {
      assert failure[state - 1] == pi[state - 1];
      IdsCompare(idByLine, next, interned, state, row);
      FallBack(before, row, next, state, pi[state - 1]);
      state := pi[state - 1];
    }
    IdsCompare(idByLine, next, interned, state, row);
    Settle(before, row, next, state);
    if pattern[state] == id {
      state := state + 1;
    }
  }

  method FindLineOverlapLinear(previousLines: seq<Text>, nextLines: seq<Text>) returns (state: nat)
    ensures IsLargestOverlap(previousLines, nextLines, state)
  {
    if |previousLines| == 0 || |nextLines| == 0 {
      return 0;
    }
    var m := |nextLines|;
    var pattern := new int[m];
    var idByLine := InternRows(nextLines, pattern);
    var pi := PrefixFunction(nextLines, idByLine, pattern);
    state := 0;
    for i := 0 to |previousLines|
      modifies {}
      invariant IsLargestOverlap(previousLines[..i], nextLines, state)
      invariant Interns(idByLine, nextLines, pattern[..]) && IsFailureFunction(nextLines, pi[..])
    {
      assert previousLines[..i + 1] == previousLines[..i] + [previousLines[i]];
      state := ConsumeRow(previousLines[..i], previousLines[i], nextLines, idByLine, pattern, pi, state);
    }
    assert previousLines[..|previousLines|] == previousLines;
  }

  // ---- The shipped entry points ------------------------------------------------------

  method FindLineOverlap(previousLines: seq<Text>, nextLines: seq<Text>) returns (overlap: nat)
    ensures IsLargestOverlap(previousLines, nextLines, overlap)
  {
    overlap := if |previousLines| < |nextLines| then |previousLines| else |nextLines|;
    var budget := 2 * (|previousLines| + |nextLines|) + 64;
    while overlap > 0
      invariant overlap <= |previousLines| && overlap <= |nextLines|
      invariant forall j :: IsOverlap(previousLines, nextLines, j) ==> j <= overlap
    {
      var matches := true;
      var previousStart := |previousLines| - overlap;
      var i := 0;
      while i < overlap
        invariant 0 <= i <= overlap
        invariant previousLines[previousStart..previousStart + i] == nextLines[..i]
      {
        budget := budget - 1;
        if budget < 0 {
          overlap := FindLineOverlapLinear(previousLines, nextLines);
          return;
        }
        if previousLines[previousStart + i] != nextLines[i] {
          assert previousLines[previousStart..][i] != nextLines[..overlap][i];
          matches := false;
          break;
        }
        assert previousLines[previousStart..previousStart + i + 1]
            == previousLines[previousStart..previousStart + i] + [nextLines[i]];
        i := i + 1;
      }
      if matches {
        assert previousLines[previousStart..] == previousLines[previousStart..previousStart + overlap];
        return;
      }
      overlap := overlap - 1;
    }
  }

  datatype StableCaptureMerge = StableCaptureMerge(lines: seq<Text>, appendedLineCount: int, preservedPrefix: bool)

  ghost predicate IsPrefix(short: seq<Text>, long: seq<Text>) {
    |short| <= |long| && long[..|short|] == short
  }

  ghost predicate IsSuffix(short: seq<Text>, long: seq<Text>) {
    |short| <= |long| && long[|long| - |short|..] == short
  }

  /** `lines` begins with the old capture, ends with the new one, and nothing shorter does. */
  ghost predicate IsShortestMerge(previous: seq<Text>, next: seq<Text>, lines: seq<Text>) {
    && IsPrefix(previous, lines) && IsSuffix(next, lines)
    && forall other :: IsPrefix(previous, other) && IsSuffix(next, other) ==> |lines| <= |other|
  }

  lemma LargestOverlapMergesShortest(previous: seq<Text>, next: seq<Text>, k: int)
    requires IsLargestOverlap(previous, next, k)
    ensures IsShortestMerge(previous, next, previous + next[k..])
  {
    var lines := previous + next[k..];
    assert lines[|lines| - |next|..] == previous[|previous| - k..] + next[k..];
    assert next[..k] + next[k..] == next;
    forall other | IsPrefix(previous, other) && IsSuffix(next, other) ensures |lines| <= |other| {
      var j := |previous| + |next| - |other|;
      if 0 <= j {
        assert previous[|previous| - j..] == other[|previous| - j..|previous|];
        assert next[..j] == other[|other| - |next|..][..j];
        assert IsOverlap(previous, next, j);
      }
    }
  }

  method MergeCapturedLinesForStableScroll(previousLines: seq<Text>, nextLines: seq<Text>)
    returns (merged: StableCaptureMerge)
    ensures merged.preservedPrefix ==>
              && IsShortestMerge(previousLines, nextLines, merged.lines)
              && merged.appendedLineCount == |merged.lines| - |previousLines|
    ensures !merged.preservedPrefix ==>
              merged.lines == nextLines && merged.appendedLineCount == |nextLines| - |previousLines|
    // The capture is replaced exactly when fewer than eight rows (or than all rows of the
    // shorter capture) line up.
    ensures merged.preservedPrefix <==>
            |previousLines| > 0 &&
            exists k :: IsOverlap(previousLines, nextLines, k) && (k >= 8 || k == |previousLines| || k == |nextLines|)
  {
    if |previousLines| == 0 {
      return StableCaptureMerge(nextLines, |nextLines|, false);
    }
    var overlap := FindLineOverlap(previousLines, nextLines);
    var shorter := if |previousLines| < |nextLines| then |previousLines| else |nextLines|;
    var minimumStableOverlap := if 8 < shorter then 8 else shorter;
    if overlap >= minimumStableOverlap {
      LargestOverlapMergesShortest(previousLines, nextLines, overlap);
      var appended := nextLines[overlap..];
      merged := StableCaptureMerge(
        if |appended| > 0 then previousLines + appended else previousLines, |appended|, true);
      assert merged.lines == previousLines + nextLines[overlap..];
      assert overlap >= 8 || overlap == |previousLines| || overlap == |nextLines|;
    } else {
      merged := StableCaptureMerge(nextLines, |nextLines| - |previousLines|, false);
    }
  }
}
