/** What an atom takes: literals, dots and classes, with and without case. */
module RegexAtoms {
  import opened Wrappers
  import opened Text
  import opened RegexLite

  /** The text is one whole code point. */
  predicate IsCodePoint(ch: Text) {
    |ch| > 0 && CodePoint(ch, 0) == ch
  }

  /** With case a class takes the code points it names, and those between its ends. */
  lemma ClassTakesWithCase(singles: seq<nat>, ranges: seq<CodeRange>, ch: Text, matcher: Matcher)
    requires IsCodePoint(ch) && matcher.caseSensitive
    ensures ClassMatches(singles, ranges, ch, matcher) <==>
              exists code: nat :: code < 0x11_0000 && FromCodePoint(code) == ch
                && (code in singles || exists range :: range in ranges && range.start <= code <= range.end)
  {
    CodePointRoundTrip(ch, 0);
    var code := CodePointAt(ch, 0);
    forall other: nat | other < 0x11_0000 && FromCodePoint(other) == ch ensures other == code {
      CodePointIsUnique(ch, 0, other);
    }
    assert (exists range :: range in ranges && range.start <= code <= range.end) <==>
      exists i :: 0 <= i < |ranges| && InRange(ranges[i], code);
  }

  /** Without case a class takes a character that lowers to what one it names lowers to, one
      between its ends, or one that lowers to a text between what the ends lower to. */
  lemma ClassTakesWithoutCase(singles: seq<nat>, ranges: seq<CodeRange>, ch: Text, matcher: Matcher)
    requires IsCodePoint(ch) && !matcher.caseSensitive
    requires forall i :: 0 <= i < |singles| ==> singles[i] < 0x11_0000
    requires forall i :: 0 <= i < |ranges| ==> ranges[i].start < 0x11_0000 && ranges[i].end < 0x11_0000
    ensures ClassMatches(singles, ranges, ch, matcher) <==>
              || (exists single :: single in singles && matcher.lower(FromCodePoint(single)) == matcher.lower(ch))
              || (exists range :: range in ranges && range.start <= CodePointAt(ch, 0) <= range.end)
              || (exists range :: range in ranges
                    && TextLessEq(matcher.lower(FromCodePoint(range.start)), matcher.lower(ch))
                    && TextLessEq(matcher.lower(ch), matcher.lower(FromCodePoint(range.end))))
  {
    forall single | single in singles ensures exists i :: 0 <= i < |singles| && singles[i] == single {
    }
    forall range | range in ranges ensures exists i :: 0 <= i < |ranges| && ranges[i] == range {
    }
  }

  /** Leaving case aside never loses a character. */
  lemma CaseOnlyNarrows(node: Node, ch: Text, lower: Text -> Text)
    requires IsCodePoint(ch) && ConsumeMatches(node, ch, Matcher(true, lower))
    ensures ConsumeMatches(node, ch, Matcher(false, lower))
  {
    CodePointRoundTrip(ch, 0);
    if node.Class? && CodePointAt(ch, 0) in node.singles {
      var i :| 0 <= i < |node.singles| && node.singles[i] == CodePointAt(ch, 0);
      assert Folded(node.singles[i], Matcher(false, lower)) == lower(ch);
    }
  }

  /** A class of one character is that character, and so is a range from it to itself. */
  lemma SingletonIsLiteral(code: nat, ch: Text, quant: Quantifier, matcher: Matcher)
    requires code < 0x11_0000 && IsCodePoint(ch)
    ensures var literal := Literal(FromCodePoint(code), quant);
            && (ConsumeMatches(Class([code], [], quant), ch, matcher) <==> ConsumeMatches(literal, ch, matcher))
            && (ConsumeMatches(Class([], [CodeRange(code, code)], quant), ch, matcher) <==>
                  ConsumeMatches(literal, ch, matcher))
  {
    CodePointRoundTrip(ch, 0);
    if FromCodePoint(code) == ch {
      CodePointIsUnique(ch, 0, code);
    }
    var named, taken := matcher.lower(FromCodePoint(code)), matcher.lower(ch);
    OrderIsAntisymmetric(named, taken);
    assert [code][0] == code && [CodeRange(code, code)][0] == CodeRange(code, code);
  }

  lemma {:induction false} OrderIsAntisymmetric(left: Text, right: Text)
    ensures TextLessEq(left, right) && TextLessEq(right, left) <==> left == right
  {
    if left != [] && right != [] {
      OrderIsAntisymmetric(left[1..], right[1..]);
      assert left == [left[0]] + left[1..] && right == [right[0]] + right[1..];
    }
  }

  /** Any two texts can be compared, and the shorter of two that agree comes first. */
  lemma {:induction false} OrderIsTotal(left: Text, right: Text)
    ensures TextLessEq(left, right) || TextLessEq(right, left)
    ensures |left| <= |right| && left == right[..|left|] ==> TextLessEq(left, right)
  {
    if left != [] && right != [] {
      OrderIsTotal(left[1..], right[1..]);
      if |left| <= |right| && left == right[..|left|] {
        assert left[0] == right[0] && left[1..] == right[1..][..|left| - 1];
      }
    }
  }

  function LowerUnit(u: Unit): Unit {
    if 0x41 <= u <= 0x5a then u + 0x20 else u
  }

  /** On ASCII, `[s-e]` without case takes what lies between `s` and `e` in either of two ways:
      as it is, or with all three lowered. */
  lemma AsciiRangeWithoutCase(range: CodeRange, u: Unit, matcher: Matcher)
    requires range.start < 0x80 && range.end < 0x80 && u < 0x80 && !matcher.caseSensitive
    requires forall a: Unit :: a < 0x80 ==> matcher.lower([a]) == [LowerUnit(a)]
    ensures ClassMatches([], [range], [u], matcher) <==>
              || range.start <= u <= range.end
              || LowerUnit(range.start) <= LowerUnit(u) <= LowerUnit(range.end)
  {
    assert [range][0] == range;
    OneUnitOrder(LowerUnit(range.start), LowerUnit(u));
    OneUnitOrder(LowerUnit(u), LowerUnit(range.end));
  }

  lemma OneUnitOrder(a: Unit, b: Unit)
    ensures TextLessEq([a], [b]) <==> a <= b
  {
    assert [a][1..] == [] && [b][1..] == [];
  }

  /** Dots lead from code point to code point, over anything. */
  lemma {:induction false} DotsReach(p: Problem, t: nat, start: nat, end: nat) returns (n: nat)
    requires start <= end && Aligned(p.line, start) && Aligned(p.line, end)
    requires t < |p.nodes| && p.nodes[t].Dot?
    ensures Run(p, t, start, n, end)
    decreases end - start
  {
    n := 0;
    if start < end {
      StepAligned(p.line, start);
      var rest := DotsReach(p, t, After(p, start), end);
      n := rest + 1;
    }
  }

  /** `.*` alone matches exactly the stretches between code points. */
  lemma DotStarMatchesAnything(p: Problem, from: nat, to: nat)
    requires p.nodes == [Dot(Quantifier(0, None))] && Aligned(p.line, from)
    ensures Matches(p, 0, from, to) <==> from <= to <= |p.line| && Aligned(p.line, to)
  {
    if Matches(p, 0, from, to) {
      var n: nat, mid: nat :| Allowed(p.nodes[0].quant, n) && Run(p, 0, from, n, mid) && Matches(p, 1, mid, to);
      RunForward(p, 0, from, n, mid);
    }
    if from <= to <= |p.line| && Aligned(p.line, to) {
      var n := DotsReach(p, 0, from, to);
      assert Allowed(p.nodes[0].quant, n) && Matches(p, 1, to, to);
    }
  }
}
