/** Seams between durable history and the live window (core/src/protocol.ts): how an incoming
    seam relates to the last accepted one. */
module HistorySeam {
  import opened Text

  /** Where live output joins history: the archive's generation, the first live line, and the
      write-ahead log's sequence number (as decimal text) and byte offset. */
  datatype Boundary = Boundary(generation: Text, liveStartLine: int, walSequence: Text, walOffset: int)

  /** `^(0|[1-9][0-9]{0,19})$`: up to twenty digits without leading zeros. */
  predicate IsCanonicalDecimal(text: Text) {
    && 1 <= |text| <= 20
    && AllDigits(text)
    && (text[0] == 0x30 ==> |text| == 1)
  }

  predicate ValidateMuxHistoryBoundary(b: Boundary) {
    && 1 <= |b.generation| <= 256
    && 0 <= b.liveStartLine <= MAX_SAFE_INTEGER
    && IsCanonicalDecimal(b.walSequence)
    && 0 <= b.walOffset <= MAX_SAFE_INTEGER
  }

  // ---- Comparing decimals as text -------------------------------------------------------------

  function CompareDecimalStrings(left: Text, right: Text): int {
    if |left| != |right| then (if |left| < |right| then -1 else 1)
    else if left == right then 0
    else if TextLessEq(left, right) then -1 else 1
  }

  function Power10(n: nat): (p: nat)
    ensures p > 0
  {
    if n == 0 then 1 else 10 * Power10(n - 1)
  }

  predicate AllDigits(text: Text) {
    forall i :: 0 <= i < |text| ==> IsDigit(text[i])
  }

  /** The number that digits stand for. */
  function Value(digits: Text): nat
    requires AllDigits(digits)
  {
    if digits == [] then 0
    else
      var last := |digits| - 1;
      assert IsDigit(digits[last]);
      10 * Value(digits[..last]) + (digits[last] - 0x30)
  }

  /** Digits without leading zero: between two powers of ten. */
  lemma {:induction false} ValueBounds(digits: Text)
    requires AllDigits(digits)
    ensures Value(digits) < Power10(|digits|)
    ensures |digits| > 0 && digits[0] != 0x30 ==> Power10(|digits| - 1) <= Value(digits)
  {
    if digits != [] {
      var last := |digits| - 1;
      ValueBounds(digits[..last]);
      assert IsDigit(digits[last]) && IsDigit(digits[0]);
      if last > 0 {
        assert digits[..last][0] == digits[0];
      }
    }
  }

  lemma {:induction false} PowerGrows(m: nat, n: nat)
    requires m <= n
    ensures Power10(m) <= Power10(n)
  {
    if m < n {
      PowerGrows(m, n - 1);
    }
  }

  /** A shorter canonical decimal is a smaller number. */
  lemma ShorterIsSmaller(left: Text, right: Text)
    requires IsCanonicalDecimal(left) && IsCanonicalDecimal(right) && |left| < |right|
    ensures Value(left) < Value(right)
  {
    ValueBounds(left);
    ValueBounds(right);
    PowerGrows(|left|, |right| - 1);
  }

  /** Texts of one length that grow at the end: the last unit decides only between equal fronts. */
  lemma {:induction false} LastUnitDecides(left: Text, right: Text, l: Unit, r: Unit)
    requires |left| == |right|
    ensures TextLessEq(left + [l], right + [r]) <==> if left == right then l <= r else TextLessEq(left, right)
  {
    if left != [] {
      LastUnitDecides(left[1..], right[1..], l, r);
      assert (left + [l])[1..] == left[1..] + [l] && (right + [r])[1..] == right[1..] + [r];
      assert left == [left[0]] + left[1..] && right == [right[0]] + right[1..];
    }
  }

  /** Digits of one length compare as text the way their numbers do. */
  lemma {:induction false} SameLengthComparesAsText(left: Text, right: Text)
    requires |left| == |right| && AllDigits(left) && AllDigits(right)
    ensures TextLessEq(left, right) <==> Value(left) <= Value(right)
    ensures left == right <==> Value(left) == Value(right)
  {
    if left != [] {
      var last := |left| - 1;
      SameLengthComparesAsText(left[..last], right[..last]);
      LastUnitDecides(left[..last], right[..last], left[last], right[last]);
      assert left[..last] + [left[last]] == left && right[..last] + [right[last]] == right;
      assert IsDigit(left[last]) && IsDigit(right[last]);
      hide TextLessEq;
    }
  }

  /** On validated sequence numbers the text comparison is numeric. */
  lemma ComparesNumerically(left: Text, right: Text)
    requires IsCanonicalDecimal(left) && IsCanonicalDecimal(right)
    ensures CompareDecimalStrings(left, right) == if Value(left) < Value(right) then -1
            else if Value(left) == Value(right) then 0 else 1
    ensures Value(left) == Value(right) <==> left == right
  {
    if |left| < |right| {
      ShorterIsSmaller(left, right);
    } else if |right| < |left| {
      ShorterIsSmaller(right, left);
    } else {
      SameLengthComparesAsText(left, right);
    }
  }

  // ---- Validation -----------------------------------------------------------------------------

  lemma {:induction false} PrintedValue(n: nat)
    ensures AllDigits(Decimal(n)) && Value(Decimal(n)) == n
    ensures n > 0 ==> Decimal(n)[0] != 0x30
    ensures n == 0 ==> Decimal(n) == [0x30]
  {
    if n >= 10 {
      PrintedValue(n / 10);
      assert Decimal(n)[..|Decimal(n)| - 1] == Decimal(n / 10);
    } else {
      assert Decimal(n)[..0] == [];
    }
  }

  /** Printed numbers of at most twenty digits are canonical. */
  lemma PrintedIsCanonical(n: nat)
    requires n < Power10(20)
    ensures IsCanonicalDecimal(Decimal(n))
  {
    PrintedValue(n);
    ValueBounds(Decimal(n));
    if |Decimal(n)| > 20 {
      PowerGrows(20, |Decimal(n)| - 1);
    }
  }

  /** The sequence numbers let through are exactly the numbers of at most twenty digits, as they
      are printed. */
  lemma CanonicalIsPrinted(text: Text)
    ensures IsCanonicalDecimal(text) <==> exists n: nat :: n < Power10(20) && text == Decimal(n)
    ensures IsCanonicalDecimal(text) ==> text == Decimal(Value(text))
  {
    if IsCanonicalDecimal(text) {
      ValueBounds(text);
      PowerGrows(|text|, 20);
      PrintedIsCanonical(Value(text));
      PrintedValue(Value(text));
      ComparesNumerically(text, Decimal(Value(text)));
    }
    forall n: nat | n < Power10(20) && text == Decimal(n) ensures IsCanonicalDecimal(text) {
      PrintedIsCanonical(n);
    }
  }

  /** Which seams are let through. */
  lemma ValidMeaning(b: Boundary)
    ensures ValidateMuxHistoryBoundary(b) <==>
              && 0 < |b.generation| <= 256
              && 0 <= b.liveStartLine <= 0x1f_ffff_ffff_ffff && 0 <= b.walOffset <= 0x1f_ffff_ffff_ffff
              && exists n: nat :: n < Power10(20) && b.walSequence == Decimal(n)
  {
    CanonicalIsPrinted(b.walSequence);
  }

  // ---- Transitions ----------------------------------------------------------------------------

  datatype Transition = GenerationMismatch | Regression | Same | Advance

  function Sign(n: int): int {
    if n < 0 then -1 else if n == 0 then 0 else 1
  }

  function MuxHistoryBoundaryTransition(previous: Boundary, next: Boundary): Transition {
    if previous.generation != next.generation then GenerationMismatch
    else
      var sequenceOrder := CompareDecimalStrings(previous.walSequence, next.walSequence);
      var offsetOrder := Sign(next.walOffset - previous.walOffset);
      if || next.liveStartLine < previous.liveStartLine
         || sequenceOrder > 0
         || offsetOrder < 0
         || (sequenceOrder == 0) != (offsetOrder == 0)
         || (next.liveStartLine > previous.liveStartLine && sequenceOrder == 0)
      then Regression
      else if next.liveStartLine == previous.liveStartLine && sequenceOrder == 0
          && next.walOffset == previous.walOffset then Same
      else Advance
  }

  /** The seam may follow: it is the same or an advance. */
  predicate MayFollow(previous: Boundary, next: Boundary) {
    MuxHistoryBoundaryTransition(previous, next).Same? || MuxHistoryBoundaryTransition(previous, next).Advance?
  }

  /** What the four answers mean, in numbers. */
  lemma TransitionMeaning(previous: Boundary, next: Boundary)
    requires ValidateMuxHistoryBoundary(previous) && ValidateMuxHistoryBoundary(next)
    ensures var transition := MuxHistoryBoundaryTransition(previous, next);
            var p, n := Value(previous.walSequence), Value(next.walSequence);
            && (transition.GenerationMismatch? <==> previous.generation != next.generation)
            && (transition.Same? <==> previous == next)
            && (transition.Advance? <==>
                  previous.generation == next.generation && p < n && previous.walOffset < next.walOffset
                  && previous.liveStartLine <= next.liveStartLine)
  {
    ComparesNumerically(previous.walSequence, next.walSequence);
  }

  /** Accepting seams is a partial order on the seams of one generation. */
  lemma SeamsAreOrdered(a: Boundary, b: Boundary, c: Boundary)
    requires ValidateMuxHistoryBoundary(a) && ValidateMuxHistoryBoundary(b) && ValidateMuxHistoryBoundary(c)
    ensures MayFollow(a, a)
    ensures MayFollow(a, b) && MayFollow(b, a) ==> a == b
    ensures MayFollow(a, b) && MayFollow(b, c) ==> MayFollow(a, c)
  {
    TransitionMeaning(a, a);
    TransitionMeaning(a, b);
    TransitionMeaning(b, a);
    TransitionMeaning(b, c);
    TransitionMeaning(a, c);
  }

  /** A run of seams in which each may follow the one before it. */
  ghost predicate IsAcceptedChain(seams: seq<Boundary>) {
    && (forall i :: 0 <= i < |seams| ==> ValidateMuxHistoryBoundary(seams[i]))
    && (forall i :: 0 < i < |seams| ==> MayFollow(seams[i - 1], seams[i]))
  }

  /** Along an accepted run any two seams are in order, and the sequence number alone tells
      which seam it is: offset and first live line go with it. */
  lemma {:induction false} ChainsStayInOrder(seams: seq<Boundary>, a: nat, b: nat)
    requires IsAcceptedChain(seams) && a <= b < |seams|
    ensures MayFollow(seams[a], seams[b])
    ensures Value(seams[a].walSequence) == Value(seams[b].walSequence) ==> seams[a] == seams[b]
    decreases b - a
  {
    if a == b {
      SeamsAreOrdered(seams[a], seams[a], seams[a]);
    } else {
      ChainsStayInOrder(seams, a, b - 1);
      SeamsAreOrdered(seams[a], seams[b - 1], seams[b]);
    }
    hide MuxHistoryBoundaryTransition;
    TransitionMeaning(seams[a], seams[b]);
  }
}
