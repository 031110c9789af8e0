/** Joining captures of a pane to its archive (server/src/history-stitch.ts). */
module HistoryStitch {
  import opened Text

  type Rows = seq<Text>

  datatype AnchorMatch = Found(index: nat) | Missing | Ambiguous

  // ---- Finding the archive's tail in a capture --------------------------------------------------

  predicate OccursAt(hay: Rows, needle: Rows, start: nat) {
    start + |needle| <= |hay| && forall k :: 0 <= k < |needle| ==> hay[start + k] == needle[k]
  }

  /** All places below `n` where the needle occurs. */
  function Occurrences(hay: Rows, needle: Rows, n: nat): (starts: seq<nat>)
    ensures forall i: nat :: i in starts <==> i < n && OccursAt(hay, needle, i)
    ensures forall a, b :: 0 <= a < b < |starts| ==> starts[a] < starts[b]
  {
    if n == 0 then []
    else
      var before := Occurrences(hay, needle, n - 1);
      assert forall k :: 0 <= k < |before| ==> before[k] in before;
      if OccursAt(hay, needle, n - 1) then before + [n - 1] else before
  }

  /** Where the needle is, if it is in exactly one place. */
  function Location(hay: Rows, needle: Rows): AnchorMatch {
    if |needle| == 0 || |hay| < |needle| then Missing
    else
      var starts := Occurrences(hay, needle, |hay| - |needle| + 1);
      if |starts| == 0 then Missing else if |starts| == 1 then Found(starts[0]) else Ambiguous
  }

  /** An index exactly when there is one occurrence and no other, `ambiguous` exactly when there
      are two; an empty needle is nowhere. */
  lemma LocationMeaning(hay: Rows, needle: Rows, i: nat)
    ensures Location(hay, needle) == Found(i) <==>
            |needle| > 0 && OccursAt(hay, needle, i) && forall j: nat :: OccursAt(hay, needle, j) ==> j == i
    ensures Location(hay, needle).Ambiguous? <==>
            |needle| > 0 && exists a: nat, b: nat :: a < b && OccursAt(hay, needle, a) && OccursAt(hay, needle, b)
    ensures Location(hay, needle).Missing? <==> |needle| == 0 || forall j: nat :: !OccursAt(hay, needle, j)
  {
    hide Occurrences, OccursAt;
    if |needle| == 0 || |hay| < |needle| {
      LongNeedleIsNowhere(hay, needle);
    } else {
      var starts := AllOccurrences(hay, needle);
      MembersOfShort(starts);
    }
  }

  lemma LongNeedleIsNowhere(hay: Rows, needle: Rows)
    ensures |hay| < |needle| ==> forall j: nat :: !OccursAt(hay, needle, j)
  {
  }

  lemma AllOccurrences(hay: Rows, needle: Rows) returns (starts: seq<nat>)
    requires 0 < |needle| <= |hay|
    ensures starts == Occurrences(hay, needle, |hay| - |needle| + 1)
    ensures forall j: nat :: j in starts <==> OccursAt(hay, needle, j)
    ensures forall a, b :: 0 <= a < b < |starts| ==> starts[a] < starts[b]
  {
    starts := Occurrences(hay, needle, |hay| - |needle| + 1);
    hide Occurrences;
  }

  /** A list of at most one item has it as its only member; a longer increasing one has two. */
  lemma MembersOfShort(starts: seq<nat>)
    requires forall a, b :: 0 <= a < b < |starts| ==> starts[a] < starts[b]
    ensures |starts| > 0 ==> starts[0] in starts
    ensures |starts| == 0 <==> forall j: nat :: j !in starts
    ensures |starts| == 1 ==> forall j: nat :: j in starts <==> j == starts[0]
    ensures |starts| > 1 ==> starts[0] in starts && starts[1] in starts && starts[0] < starts[1]
  {
  }

  /** Below `n` the needle is at `found` and nowhere else; at -1 it is nowhere. */
  ghost predicate OnlyAt(hay: Rows, needle: Rows, n: nat, found: int) {
    && -1 <= found < n
    && (found >= 0 ==> OccursAt(hay, needle, found))
    && forall i: nat :: i < n && OccursAt(hay, needle, i) ==> i == found
  }

  method LocateAnchor(hay: Rows, needle: Rows) returns (place: AnchorMatch)
    ensures place == Location(hay, needle)
  {
    if |needle| == 0 || |hay| < |needle| {
      return Missing;
    }
    hide Occurrences, Location, OnlyAt;
    var found: int := -1;
    var start: nat := 0;
    NowhereYet(hay, needle);
    while start <= |hay| - |needle|
      invariant start <= |hay| - |needle| + 1
      invariant OnlyAt(hay, needle, start, found)
    {
      var matches := true;
      var index: nat := 0;
      while index < |needle|
        invariant index <= |needle| && matches
        invariant forall k :: 0 <= k < index ==> hay[start + k] == needle[k]
      {
        if hay[start + index] != needle[index] {
          matches := false;
          break;
        }
        index := index + 1;
      }
      assert matches <==> OccursAt(hay, needle, start);
      hide OccursAt;
      OneStartMore(hay, needle, start, found);
      if matches {
        if found != -1 {
          return Ambiguous;
        }
        found := start;
      }
      start := start + 1;
    }
    AllStartsSeen(hay, needle, found);
    return if found == -1 then Missing else Found(found);
  }

  lemma NowhereYet(hay: Rows, needle: Rows)
    ensures OnlyAt(hay, needle, 0, -1)
  {
  }

  lemma OneStartMore(hay: Rows, needle: Rows, start: nat, found: int)
    requires |needle| > 0 && OnlyAt(hay, needle, start, found)
    ensures !OccursAt(hay, needle, start) ==> OnlyAt(hay, needle, start + 1, found)
    ensures OccursAt(hay, needle, start) && found == -1 ==> OnlyAt(hay, needle, start + 1, start)
    ensures OccursAt(hay, needle, start) && found != -1 ==> Location(hay, needle).Ambiguous?
  {
    LocationMeaning(hay, needle, start);
  }

  lemma AllStartsSeen(hay: Rows, needle: Rows, found: int)
    requires 0 < |needle| <= |hay| && OnlyAt(hay, needle, |hay| - |needle| + 1, found)
    ensures Location(hay, needle) == if found == -1 then Missing else Found(found)
  {
    LocationMeaning(hay, needle, if found >= 0 then found else 0);
  }

  // ---- One capture --------------------------------------------------------------------------------

  /** What a capture adds, and how it was judged. */
  datatype Stitch = Stitch(appended: Rows, anchored: bool, deferred: bool, tooShort: bool)

  /** How many leading rows of a capture are above the visible screen. */
  function Cut(captured: Rows, paneRows: int): (cut: nat)
    ensures cut <= |captured|
  {
    var screen := if paneRows < 1 then 1 else paneRows;
    if |captured| < screen then 0 else |captured| - screen
  }

  function StitchCapture(archivedTail: Rows, captured: Rows, paneRows: int): Stitch {
    var cut := Cut(captured, paneRows);
    if cut == 0 then Stitch([], false, false, true)
    else if |archivedTail| == 0 then Stitch(captured[..cut], false, false, false)
    else
      match Location(captured, archivedTail)
      case Ambiguous => Stitch([], false, true, false)
      case Missing => Stitch(captured[..cut], false, false, false)
      case Found(index) =>
        var from := index + |archivedTail|;
        Stitch(if from >= cut then [] else captured[from..cut], true, false, false)
  }

  ghost predicate OccursOnce(hay: Rows, needle: Rows) {
    && |needle| > 0
    && (exists i: nat :: OccursAt(hay, needle, i))
    && (forall i: nat, j: nat :: OccursAt(hay, needle, i) && OccursAt(hay, needle, j) ==> i == j)
  }

  ghost predicate OccursTwice(hay: Rows, needle: Rows) {
    |needle| > 0 && exists i: nat, j: nat :: i < j && OccursAt(hay, needle, i) && OccursAt(hay, needle, j)
  }

  /** How many rows stand above a screen of that height. */
  function RowsAbove(captured: Rows, paneRows: int): (n: nat)
    ensures n <= |captured|
  {
    if paneRows > 1 then (if |captured| > paneRows then |captured| - paneRows else 0)
    else (if |captured| > 1 then |captured| - 1 else 0)
  }

  /** One capture: too short exactly when no row is above the screen; else put off exactly when the
      tail is in two places, and anchored exactly when it is in one. Everything above the screen is
      appended, but for what the tail in its one place covers. */
  lemma StitchMeaning(tail: Rows, captured: Rows, paneRows: int)
    ensures var stitch, n := StitchCapture(tail, captured, paneRows), RowsAbove(captured, paneRows);
            && (stitch.tooShort <==> n == 0)
            && (stitch.deferred <==> n > 0 && OccursTwice(captured, tail))
            && (stitch.anchored <==> n > 0 && OccursOnce(captured, tail))
            && (stitch.tooShort || stitch.deferred ==> stitch.appended == [])
            && (n > 0 && !OccursOnce(captured, tail) && !OccursTwice(captured, tail) ==>
                  stitch.appended == captured[..n])
            && (n > 0 && OccursOnce(captured, tail) ==>
                  forall i: nat :: OccursAt(captured, tail, i) ==>
                    stitch.appended == if i + |tail| < n then captured[i + |tail|..n] else [])
  {
    LocationIs(captured, tail);
    hide Location, OccursAt;
  }

  lemma LocationIs(hay: Rows, needle: Rows)
    ensures Location(hay, needle).Ambiguous? <==> OccursTwice(hay, needle)
    ensures Location(hay, needle).Found? <==> OccursOnce(hay, needle)
    ensures Location(hay, needle).Found? ==> OccursAt(hay, needle, Location(hay, needle).index)
  {
    LocationMeaning(hay, needle, if Location(hay, needle).Found? then Location(hay, needle).index else 0);
    hide Location, OccursAt;
    if OccursOnce(hay, needle) {
      var i: nat :| OccursAt(hay, needle, i);
    }
  }

  // ---- Runs ---------------------------------------------------------------------------------------

  /** A capture taken when row `first` of the stream was the oldest in scrollback, and how many
      of the newest archived rows are looked for in it. */
  datatype Capture = Capture(captured: Rows, paneRows: int, first: nat, tailRows: nat)

  function Tail(archive: Rows, rows: nat): Rows {
    if rows >= |archive| then archive else archive[|archive| - rows..]
  }

  function StitchOnto(archive: Rows, c: Capture): Stitch {
    StitchCapture(Tail(archive, c.tailRows), c.captured, c.paneRows)
  }

  function ArchiveAfter(captures: seq<Capture>, n: nat): Rows
    requires n <= |captures|
  {
    if n == 0 then []
    else
      var archive := ArchiveAfter(captures, n - 1);
      archive + StitchOnto(archive, captures[n - 1]).appended
  }

  /** Everything above the screen is rows of the stream, which never change, from row `first` on. */
  ghost predicate ShowsStream(stream: Rows, c: Capture) {
    var cut := Cut(c.captured, c.paneRows);
    && c.first + cut <= |stream|
    && c.captured[..cut] == stream[c.first..c.first + cut]
  }

  /** The archive's tail is still in the capture, at its true place. */
  ghost predicate TailIsThere(archive: Rows, c: Capture) {
    if archive == [] then c.first == 0
    else
      var tail := Tail(archive, c.tailRows);
      && c.tailRows > 0 && c.first + |tail| <= |archive|
      && OccursAt(c.captured, tail, |archive| - |tail| - c.first)
  }

  /** The hypotheses hold of any window on the stream that begins where the tail does, or before,
      and reaches the end of what is archived. */
  lemma WindowShowsTail(stream: Rows, archive: Rows, c: Capture)
    requires archive <= stream && c.first + |c.captured| <= |stream|
    requires c.captured == stream[c.first..c.first + |c.captured|]
    requires if archive == [] then c.first == 0
             else c.tailRows > 0 && c.first + |Tail(archive, c.tailRows)| <= |archive| <= c.first + |c.captured|
    ensures ShowsStream(stream, c) && TailIsThere(archive, c)
  {
    var tail := Tail(archive, c.tailRows);
    var from := |archive| - |tail|;
    assert tail == archive[from..];
    if archive != [] {
      forall k | 0 <= k < |tail| ensures c.captured[from - c.first + k] == tail[k] {
        assert c.captured[from - c.first + k] == stream[from + k] == archive[from + k];
      }
    }
  }

  /** How much of the stream one capture makes archived: what it shows above the screen, unless
      it is put off. */
  function Reach(archived: nat, c: Capture, stitch: Stitch): nat {
    var shown := c.first + Cut(c.captured, c.paneRows);
    if stitch.deferred || stitch.tooShort || shown < archived then archived else shown
  }

  /** One capture extends a true prefix to exactly the rows above its screen, or leaves it. */
  lemma StitchExtendsPrefix(stream: Rows, archive: Rows, c: Capture)
    requires archive <= stream && ShowsStream(stream, c) && TailIsThere(archive, c)
    ensures var stitch := StitchOnto(archive, c);
            var reach := Reach(|archive|, c, stitch);
            && reach <= |stream| && archive + stitch.appended == stream[..reach]
            && (stitch.deferred || stitch.tooShort ==> stitch.appended == [])
            && (archive != [] && !stitch.deferred && !stitch.tooShort ==> stitch.anchored)
  {
    hide Occurrences;
    var cut := Cut(c.captured, c.paneRows);
    if cut > 0 && archive != [] {
      var tail := Tail(archive, c.tailRows);
      var at := |archive| - |tail| - c.first;
      TrueTailIsFound(c.captured, tail, at);
      hide Location, OccursAt, Tail, Cut;
      if at + |tail| <= cut {
        ShownRowsJoin(stream, c.captured, c.first, cut, at + |tail|);
      }
    }
  }

  lemma ShownRowsJoin(stream: Rows, captured: Rows, first: nat, cut: nat, from: nat)
    requires from <= cut <= |captured| && first + cut <= |stream| && captured[..cut] == stream[first..first + cut]
    ensures stream[..first + from] + captured[from..cut] == stream[..first + cut]
  {
    forall k | from <= k < cut ensures captured[k] == stream[first + k] {
      assert captured[..cut][k] == stream[first..first + cut][k];
    }
  }

  lemma TrueTailIsFound(hay: Rows, needle: Rows, at: nat)
    requires |needle| > 0 && OccursAt(hay, needle, at)
    ensures Location(hay, needle).Ambiguous? || Location(hay, needle) == Found(at)
  {
    LocationMeaning(hay, needle, at);
    if Location(hay, needle).Found? {
      LocationMeaning(hay, needle, Location(hay, needle).index);
    }
  }

  /** Capture `k` of a run shows the stream, and the tail of what is archived by then. */
  ghost predicate Continuous(stream: Rows, captures: seq<Capture>, k: nat)
    requires k < |captures|
  {
    ShowsStream(stream, captures[k]) && TailIsThere(ArchiveAfter(captures, k), captures[k])
  }

  /** Safety over runs: while each capture still holds the true tail, the archive is an exact
      prefix of the stream, and each step takes it to the rows above that capture's screen. */
  lemma {:induction false} ArchiveIsPrefix(stream: Rows, captures: seq<Capture>, n: nat)
    requires n <= |captures|
    requires forall k: nat :: k < n ==> Continuous(stream, captures, k)
    ensures ArchiveAfter(captures, n) <= stream
    ensures n > 0 ==>
              var before := ArchiveAfter(captures, n - 1);
              |ArchiveAfter(captures, n)| == Reach(|before|, captures[n - 1], StitchOnto(before, captures[n - 1]))
  {
    hide StitchOnto, ShowsStream, TailIsThere, Reach;
    if n > 0 {
      ArchiveIsPrefix(stream, captures, n - 1);
      var before := ArchiveAfter(captures, n - 1);
      assert Continuous(stream, captures, n - 1);
      StitchExtendsPrefix(stream, before, captures[n - 1]);
    }
  }

  /** The last row of the stream that any of the first `n` captures shows above its screen. */
  function Greatest(captures: seq<Capture>, n: nat): (greatest: nat)
    requires n <= |captures|
    ensures forall k :: 0 <= k < n ==>
              captures[k].first + RowsAbove(captures[k].captured, captures[k].paneRows) <= greatest
    ensures n > 0 ==> exists k ::
              0 <= k < n && captures[k].first + RowsAbove(captures[k].captured, captures[k].paneRows) == greatest
  {
    if n == 0 then 0
    else
      var before, c := Greatest(captures, n - 1), captures[n - 1];
      var here := c.first + RowsAbove(c.captured, c.paneRows);
      if n == 1 || here > before then here else before
  }

  lemma OneCaptureReaches(stream: Rows, archive: Rows, c: Capture)
    requires archive <= stream && ShowsStream(stream, c) && TailIsThere(archive, c)
    requires !OccursTwice(c.captured, Tail(archive, c.tailRows))
    ensures var shown := c.first + RowsAbove(c.captured, c.paneRows);
            |archive| + |StitchOnto(archive, c).appended| == if shown > |archive| then shown else |archive|
  {
    FirstIsArchived(archive, c);
    StitchExtendsPrefix(stream, archive, c);
    StitchMeaning(Tail(archive, c.tailRows), c.captured, c.paneRows);
    assert Cut(c.captured, c.paneRows) == RowsAbove(c.captured, c.paneRows);
    hide ShowsStream, TailIsThere, OccursTwice, Tail, Cut, OccursOnce;
    assert StitchOnto(archive, c) == StitchCapture(Tail(archive, c.tailRows), c.captured, c.paneRows);
    hide StitchOnto, StitchCapture;
  }

  /** The tail of what is archived by capture `k` is not in it twice. */
  ghost predicate TailIsSingle(captures: seq<Capture>, k: nat)
    requires k < |captures|
  {
    !OccursTwice(captures[k].captured, Tail(ArchiveAfter(captures, k), captures[k].tailRows))
  }

  lemma OneStepReaches(stream: Rows, captures: seq<Capture>, k: nat)
    requires k < |captures| && Continuous(stream, captures, k) && TailIsSingle(captures, k)
    requires ArchiveAfter(captures, k) <= stream
    ensures var c, archived := captures[k], |ArchiveAfter(captures, k)|;
            var shown := c.first + RowsAbove(c.captured, c.paneRows);
            |ArchiveAfter(captures, k + 1)| == if shown > archived then shown else archived
    ensures k == 0 ==> ArchiveAfter(captures, k) == []
  {
    hide StitchOnto, ShowsStream, TailIsThere, OccursTwice, Tail, RowsAbove;
    OneCaptureReaches(stream, ArchiveAfter(captures, k), captures[k]);
  }

  /** Progress over runs: where the true tail is never in a second place, the archive holds exactly
      the rows up to the last one that was shown above a screen. */
  lemma {:induction false} ArchiveReachesGreatest(stream: Rows, captures: seq<Capture>, n: nat)
    requires n <= |captures|
    requires forall k: nat :: k < n ==> Continuous(stream, captures, k) && TailIsSingle(captures, k)
    ensures Greatest(captures, n) <= |stream| && ArchiveAfter(captures, n) == stream[..Greatest(captures, n)]
  {
    hide Continuous, TailIsSingle, StitchOnto, RowsAbove;
    ArchiveIsPrefix(stream, captures, n);
    if n > 0 {
      ArchiveReachesGreatest(stream, captures, n - 1);
      ArchiveIsPrefix(stream, captures, n - 1);
      OneStepReaches(stream, captures, n - 1);
    }
    hide ArchiveAfter;
  }

  lemma FirstIsArchived(archive: Rows, c: Capture)
    requires TailIsThere(archive, c)
    ensures c.first <= |archive|
  {
  }

  /** Without its tail in the capture the archive need not stay a prefix: with the tail scrolled
      away, the rows in between are lost. */
  lemma LostTailLeavesGap(a: Text, b: Text, c: Text, d: Text)
    requires a != c && a != d && b != c
    ensures var stream := [a, b, c];
            var later := Capture([c, d], 1, 2, 1);
            && ShowsStream(stream, later)
            && [a] + StitchOnto([a], later).appended == [a, c]
            && !([a, c] <= stream)
  {
    var captured := [c, d];
    assert captured[..1] == [c] && [a, b, c][2..3] == [c];
    LocationMeaning(captured, [a], 0);
    assert Tail([a], 1) == [a];
    forall i: nat ensures !OccursAt(captured, [a], i) {
      if i < 2 {
        assert captured[i + 0] != [a][0];
      }
    }
    TailIsMissing(captured, [a]);
    assert [a] + [c] == [a, c];
    assert [a, c][1] != [a, b, c][1];
  }

  lemma TailIsMissing(hay: Rows, needle: Rows)
    requires forall i: nat :: !OccursAt(hay, needle, i)
    ensures Location(hay, needle).Missing?
  {
    LocationMeaning(hay, needle, 0);
  }

  /** Where the appended rows start in the capture: behind the tail if it was found, else at its
      first row. */
  function JoinedFrom(archive: Rows, c: Capture): nat {
    var tail := Tail(archive, c.tailRows);
    match Location(c.captured, tail)
    case Found(index) => index + |tail|
    case _ => 0
  }

  ghost predicate AllDiffer(stream: Rows) {
    forall a, b :: 0 <= a < b < |stream| ==> stream[a] != stream[b]
  }

  /** Whatever is left of the tail, the archive stays a prefix exactly when the appended rows are
      those of the stream behind it; where no row repeats, exactly when they start at its end. */
  lemma StaysPrefixExactly(stream: Rows, archive: Rows, c: Capture)
    requires archive <= stream && ShowsStream(stream, c)
    ensures var appended := StitchOnto(archive, c).appended;
            var start := c.first + JoinedFrom(archive, c);
            && (appended != [] ==> start + |appended| <= |stream| && appended == stream[start..start + |appended|])
            && (archive + appended <= stream <==>
                  (|archive| + |appended| <= |stream| && appended == stream[|archive|..|archive| + |appended|]))
            && (AllDiffer(stream) ==> (archive + appended <= stream <==> appended == [] || start == |archive|))
  {
    var appended, start, cut := StitchOnto(archive, c).appended, c.first + JoinedFrom(archive, c),
        Cut(c.captured, c.paneRows);
    hide StitchOnto, JoinedFrom, Cut;
    if appended != [] {
      AppendedIsShown(archive, c);
      SameRows(stream, c.captured, c.first, cut, JoinedFrom(archive, c));
    }
    hide ShowsStream;
    BehindPrefix(stream, archive, appended);
    if AllDiffer(stream) && appended != [] && archive + appended <= stream {
      assert stream[|archive|] == appended[0] == stream[start];
    }
    assert archive + [] == archive;
  }

  lemma AppendedIsShown(archive: Rows, c: Capture)
    requires StitchOnto(archive, c).appended != []
    ensures var from, cut := JoinedFrom(archive, c), Cut(c.captured, c.paneRows);
            from < cut && StitchOnto(archive, c).appended == c.captured[from..cut]
  {
    hide Occurrences, Tail, Cut;
  }

  lemma SameRows(stream: Rows, captured: Rows, first: nat, cut: nat, from: nat)
    requires from <= cut <= |captured| && first + cut <= |stream| && captured[..cut] == stream[first..first + cut]
    ensures captured[from..cut] == stream[first + from..first + cut]
  {
    assert captured[from..cut] == captured[..cut][from..];
    assert stream[first + from..first + cut] == stream[first..first + cut][from..];
  }

  lemma BehindPrefix(stream: Rows, archive: Rows, appended: Rows)
    requires archive <= stream
    ensures archive + appended <= stream <==>
              (|archive| + |appended| <= |stream| && appended == stream[|archive|..|archive| + |appended|])
  {
    if archive + appended <= stream {
      assert stream[..|archive + appended|] == archive + appended;
      assert stream[|archive|..|archive| + |appended|] == (archive + appended)[|archive|..];
    }
  }
}
