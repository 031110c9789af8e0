/** The pattern language of core/src/search.ts and its meaning: what it is for a list of
    quantified atoms to match a stretch of a line. */
module RegexLite {
  import opened Wrappers
  import opened Text

  datatype Quantifier = Quantifier(min: nat, max: Option<nat>)

  datatype CodeRange = CodeRange(start: nat, end: nat)

  datatype Node =
    | StartAnchor(quant: Quantifier)
    | EndAnchor(quant: Quantifier)
    | Dot(quant: Quantifier)
    | Literal(value: Text, quant: Quantifier)
    | Class(singles: seq<nat>, ranges: seq<CodeRange>, quant: Quantifier)
  {
    predicate Consuming() {
      Dot? || Literal? || Class?
    }
  }

  const ONCE := Quantifier(1, Some(1))
  const MAX_QUANT: nat := 100

  /** What parsing guarantees of one node: anchors are never repeated, an unbounded
      repetition starts from zero or one, and the bounds of any other are ordered. */
  predicate WellFormedNode(node: Node) {
    && (!node.Consuming() ==> node.quant == ONCE)
    && match node.quant.max
       case None => node.quant.min <= 1
       case Some(max) => node.quant.min <= max <= MAX_QUANT
  }

  predicate WellFormed(nodes: seq<Node>) {
    |nodes| > 0 && forall i :: 0 <= i < |nodes| ==> WellFormedNode(nodes[i])
  }

  // ---- Matching one atom ---------------------------------------------------------------

  /** How atoms are compared. `lower` stands for `String.prototype.toLowerCase`. */
  datatype Matcher = Matcher(caseSensitive: bool, lower: Text -> Text)

  predicate InRange(range: CodeRange, code: nat) {
    range.start <= code <= range.end
  }

  /** Code points outside Unicode never reach a class; the guard keeps the model total. */
  function Folded(code: nat, matcher: Matcher): Text {
    if code < 0x11_0000 then matcher.lower(FromCodePoint(code)) else []
  }

  predicate ClassMatches(singles: seq<nat>, ranges: seq<CodeRange>, ch: Text, matcher: Matcher)
    requires |ch| > 0
  {
    var code := CodePointAt(ch, 0);
    if matcher.caseSensitive then
      (exists i :: 0 <= i < |ranges| && InRange(ranges[i], code)) || code in singles
    else
      var left := matcher.lower(ch);
      || (exists i :: 0 <= i < |ranges| &&
           (InRange(ranges[i], code)
            || (TextLessEq(Folded(ranges[i].start, matcher), left)
                && TextLessEq(left, Folded(ranges[i].end, matcher)))))
      || (exists i :: 0 <= i < |singles| && Folded(singles[i], matcher) == left)
  }

  predicate ConsumeMatches(node: Node, ch: Text, matcher: Matcher)
    requires |ch| > 0
  {
    match node
    case Dot(_) => true
    case Literal(value, _) =>
      if matcher.caseSensitive then value == ch else matcher.lower(value) == matcher.lower(ch)
    case Class(singles, ranges, _) => ClassMatches(singles, ranges, ch, matcher)
    case _ => false
  }

  // ---- Matching a pattern ----------------------------------------------------------------

  /** A pattern together with the line it is tried on. */
  datatype Problem = Problem(nodes: seq<Node>, matcher: Matcher, line: Text)

  /** Node `t` accepts the code point at `at`. */
  predicate Atom(p: Problem, t: nat, at: nat)
    requires t < |p.nodes|
  {
    at < |p.line| && ConsumeMatches(p.nodes[t], CodePoint(p.line, at), p.matcher)
  }

  function After(p: Problem, at: nat): nat
    requires at < |p.line|
  {
    at + CodePointWidth(p.line, at)
  }

  /** `n` code points in a row, each accepted by node `t`, lead from `from` to `to`. */
  ghost predicate Run(p: Problem, t: nat, from: nat, n: nat, to: nat)
    requires t < |p.nodes|
    decreases n
  {
    if n == 0 then from == to
    else Atom(p, t, from) && Run(p, t, After(p, from), n - 1, to)
  }

  predicate Allowed(quant: Quantifier, count: nat) {
    quant.min <= count && (quant.max.Some? ==> count <= quant.max.value)
  }

  /** The nodes from `t` on match exactly the stretch `[from, to)` of the line. */
  ghost predicate Matches(p: Problem, t: nat, from: nat, to: nat)
    decreases |p.nodes| - t
  {
    if t >= |p.nodes| then
      from == to
    else
      match p.nodes[t]
      case StartAnchor(_) => from == 0 && Matches(p, t + 1, from, to)
      case EndAnchor(_) => from == |p.line| && Matches(p, t + 1, from, to)
      case _ => exists n: nat, mid: nat ::
        Allowed(p.nodes[t].quant, n) && Run(p, t, from, n, mid) && Matches(p, t + 1, mid, to)
  }

  /** A match in the line: not empty, and starting on a code point. */
  ghost predicate IsMatch(p: Problem, start: nat, end: nat) {
    start < end && Aligned(p.line, start) && Matches(p, 0, start, end)
  }

  lemma {:induction false} RunForward(p: Problem, t: nat, from: nat, n: nat, to: nat)
    requires t < |p.nodes| && Run(p, t, from, n, to)
    ensures from + n <= to && (from <= |p.line| ==> to <= |p.line|)
    ensures Aligned(p.line, from) ==> Aligned(p.line, to)
    decreases n
  {
    if n > 0 {
      StepAligned(p.line, from);
      RunForward(p, t, After(p, from), n - 1, to);
    }
  }

  lemma {:induction false} MatchesForward(p: Problem, t: nat, from: nat, to: nat)
    requires Matches(p, t, from, to)
    ensures from <= to && (from <= |p.line| ==> to <= |p.line|)
    ensures Aligned(p.line, from) ==> Aligned(p.line, to)
    decreases |p.nodes| - t
  {
    if t < |p.nodes| {
      if p.nodes[t].Consuming() {
        var n: nat, mid: nat :| Allowed(p.nodes[t].quant, n) && Run(p, t, from, n, mid) && Matches(p, t + 1, mid, to);
        RunForward(p, t, from, n, mid);
        MatchesForward(p, t + 1, mid, to);
      } else {
        MatchesForward(p, t + 1, from, to);
      }
    }
  }

  // ---- The matches of a line ----------------------------------------------------------------

  datatype Span = Span(start: nat, end: nat)

  /** The farthest end, up to `limit`, of a match that starts at `start`; `start` if none. */
  ghost function Farthest(p: Problem, start: nat, limit: nat): (end: nat)
    ensures end >= start
    ensures end > start ==> end <= limit && Matches(p, 0, start, end)
    ensures forall e :: start < e <= limit && Matches(p, 0, start, e) ==> e <= end
    decreases limit
  {
    if limit <= start then start
    else if Matches(p, 0, start, limit) then limit
    else Farthest(p, start, limit - 1)
  }

  /** Scanning from `start`: take the longest match at the first place that has one, and
      carry on after it. */
  ghost function MatchesFrom(p: Problem, start: nat): seq<Span>
    decreases |p.line| - start
  {
    if start >= |p.line| then []
    else
      var end := Farthest(p, start, |p.line|);
      if end > start then [Span(start, end)] + MatchesFrom(p, end)
      else MatchesFrom(p, After(p, start))
  }

  ghost predicate IsLongest(p: Problem, span: Span) {
    && IsMatch(p, span.start, span.end)
    && forall e: nat :: IsMatch(p, span.start, e) ==> e <= span.end
  }

  /** No match of the line starts in `[from, to)`. */
  ghost predicate NoMatchStarts(p: Problem, from: nat, to: nat) {
    forall s: nat, e: nat :: from <= s < to ==> !IsMatch(p, s, e)
  }

  /** Each span is the longest match at its start; no match starts between `from` and the
      first span, between the end of a span and the start of the next, or after the last. */
  ghost predicate IsLeftmostLongest(p: Problem, from: nat, spans: seq<Span>)
    decreases |spans|
  {
    if spans == [] then
      NoMatchStarts(p, from, |p.line|)
    else
      && from <= spans[0].start
      && NoMatchStarts(p, from, spans[0].start)
      && IsLongest(p, spans[0])
      && IsLeftmostLongest(p, spans[0].end, spans[1..])
  }

  lemma FarthestIsLongest(p: Problem, start: nat)
    requires start < |p.line| && Aligned(p.line, start)
    ensures var end := Farthest(p, start, |p.line|);
            if end > start then IsLongest(p, Span(start, end)) && Aligned(p.line, end)
            else forall e: nat :: !IsMatch(p, start, e)
  {
    var end := Farthest(p, start, |p.line|);
    forall e: nat | IsMatch(p, start, e) ensures start < e <= end {
      MatchesForward(p, 0, start, e);
    }
    if end > start {
      MatchesForward(p, 0, start, end);
    }
  }

  lemma SkipStart(p: Problem, start: nat, spans: seq<Span>)
    requires start < |p.line| && (forall e: nat :: !IsMatch(p, start, e))
    requires IsLeftmostLongest(p, After(p, start), spans)
    ensures IsLeftmostLongest(p, start, spans)
  {
    StepAligned(p.line, start);
    var to := if spans == [] then |p.line| else spans[0].start;
    forall s: nat, e: nat | start <= s < to ensures !IsMatch(p, s, e) {
      if s != start && s < After(p, start) {
        assert !Aligned(p.line, s);
      }
    }
  }

  /** What scanning computes is what leftmost, longest and non-overlapping mean. */
  lemma {:induction false} MatchesFromIsLeftmostLongest(p: Problem, start: nat)
    requires Aligned(p.line, start)
    ensures IsLeftmostLongest(p, start, MatchesFrom(p, start))
    decreases |p.line| - start
  {
    if start < |p.line| {
      FarthestIsLongest(p, start);
      var end := Farthest(p, start, |p.line|);
      if end > start {
        MatchesFromIsLeftmostLongest(p, end);
        var rest := MatchesFrom(p, end);
        assert ([Span(start, end)] + rest)[1..] == rest;
      } else {
        StepAligned(p.line, start);
        MatchesFromIsLeftmostLongest(p, After(p, start));
        SkipStart(p, start, MatchesFrom(p, After(p, start)));
      }
    }
  }

  /** Nothing else fits the description. */
  lemma {:induction false} LeftmostLongestIsUnique(p: Problem, from: nat, a: seq<Span>, b: seq<Span>)
    requires IsLeftmostLongest(p, from, a) && IsLeftmostLongest(p, from, b)
    ensures a == b
    decreases |a|
  {
    if a != [] { MatchFits(p, a[0].start, a[0].end); }
    if b != [] { MatchFits(p, b[0].start, b[0].end); }
    if a != [] && b != [] {
      assert a[0] == b[0];
      LeftmostLongestIsUnique(p, a[0].end, a[1..], b[1..]);
    }
  }

  lemma MatchFits(p: Problem, start: nat, end: nat)
    requires IsMatch(p, start, end)
    ensures start < end <= |p.line|
  {
    MatchesForward(p, 0, start, end);
  }
}
