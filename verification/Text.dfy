/** JavaScript strings: sequences of UTF-16 code units, with the few notions of code point
    that the sources use. */
module Text {
  type Unit = u: nat | u < 0x1_0000

  type Text = seq<Unit>

  const NEWLINE: Unit := 0x0a
  const ESC: Unit := 0x1b
  const BEL: Unit := 0x07

  predicate IsHighSurrogate(u: Unit) {
    0xd800 <= u <= 0xdbff
  }

  predicate IsLowSurrogate(u: Unit) {
    0xdc00 <= u <= 0xdfff
  }

  predicate IsSurrogatePairAt(text: Text, index: int) {
    && 0 <= index
    && index + 1 < |text|
    && IsHighSurrogate(text[index])
    && IsLowSurrogate(text[index + 1])
  }

  /** UTF-16 width of the code point that starts at `offset`. */
  function CodePointWidth(text: Text, offset: nat): (w: nat)
    requires offset < |text|
    ensures 1 <= w <= 2 && offset + w <= |text|
  {
    if IsSurrogatePairAt(text, offset) then 2 else 1
  }

  /** `offset` does not fall between the two halves of a surrogate pair. */
  predicate Aligned(text: Text, offset: int) {
    0 <= offset <= |text| && !IsSurrogatePairAt(text, offset - 1)
  }

  /** Stepping by whole code points visits exactly the aligned offsets. */
  lemma StepAligned(text: Text, offset: nat)
    requires offset < |text|
    ensures var next := offset + CodePointWidth(text, offset);
            Aligned(text, next) && forall j :: offset < j && Aligned(text, j) ==> next <= j
  {
  }

  /** The one code point that starts at `offset`, as a string. */
  function CodePoint(text: Text, offset: nat): Text
    requires offset < |text|
  {
    text[offset..offset + CodePointWidth(text, offset)]
  }

  function CodePointAt(text: Text, offset: nat): nat
    requires offset < |text|
  {
    if IsSurrogatePairAt(text, offset) then
      var hi: nat, lo: nat := text[offset] - 0xd800, text[offset + 1] - 0xdc00;
      0x1_0000 + hi * 0x400 + lo
    else
      text[offset]
  }

  function FromCodePoint(code: nat): Text
    requires code < 0x11_0000
  {
    if code < 0x1_0000 then [code]
    else
      var c := code - 0x1_0000;
      [0xd800 + c / 0x400, 0xdc00 + c % 0x400]
  }

  lemma CodePointRoundTrip(text: Text, at: nat)
    requires at < |text|
    ensures CodePointAt(text, at) < 0x11_0000 && FromCodePoint(CodePointAt(text, at)) == CodePoint(text, at)
  {
    if IsSurrogatePairAt(text, at) {
      var hi: nat, lo: nat := text[at] - 0xd800, text[at + 1] - 0xdc00;
      assert (hi * 0x400 + lo) / 0x400 == hi && (hi * 0x400 + lo) % 0x400 == lo;
    }
  }

  lemma CodePointIsUnique(text: Text, at: nat, code: nat)
    requires at < |text| && code < 0x11_0000 && CodePoint(text, at) == FromCodePoint(code)
    ensures code == CodePointAt(text, at)
  {
    if code >= 0x1_0000 {
      var c := code - 0x1_0000;
      assert CodePoint(text, at)[0] == 0xd800 + c / 0x400 && CodePoint(text, at)[1] == 0xdc00 + c % 0x400;
      assert c == (c / 0x400) * 0x400 + c % 0x400;
    } else {
      assert CodePoint(text, at)[0] == code;
    }
  }

  /** JavaScript's `left <= right` on strings: by code unit, a proper prefix first. */
  predicate TextLessEq(left: Text, right: Text) {
    left == [] || (right != [] && (left[0] < right[0] || (left[0] == right[0] && TextLessEq(left[1..], right[1..]))))
  }

  // ---- Literals and numbers ------------------------------------------------------------------

  const MAX_SAFE_INTEGER: int := 0x1f_ffff_ffff_ffff

  predicate IsSafeInteger(n: int) {
    -MAX_SAFE_INTEGER <= n <= MAX_SAFE_INTEGER
  }

  predicate IsDigit(u: Unit) {
    0x30 <= u <= 0x39
  }

  /** A string literal as code units; only used for ASCII. */
  function Ascii(literal: string): (text: Text)
    ensures |text| == |literal|
  {
    seq(|literal|, i requires 0 <= i < |literal| => if literal[i] < 128 as char then literal[i] as int else 0)
  }

  /** The decimal digits of a number, as template literals print it. */
  function Decimal(n: nat): (digits: Text)
    ensures |digits| > 0
    ensures forall i :: 0 <= i < |digits| ==> IsDigit(digits[i])
  {
    if n < 10 then [0x30 + n] else Decimal(n / 10) + [0x30 + n % 10]
  }

  lemma OneDigit(n: nat)
    ensures |Decimal(n)| == 1 <==> n < 10
  {
  }

  /** Different numbers print differently. */
  lemma {:induction false} DecimalIsInjective(a: nat, b: nat)
    requires Decimal(a) == Decimal(b)
    ensures a == b
  {
    OneDigit(a);
    OneDigit(b);
    var s, t := Decimal(a), Decimal(b);
    assert s[|s| - 1] == t[|t| - 1] && s[..|s| - 1] == t[..|t| - 1];
    if a >= 10 {
      assert s[..|s| - 1] == Decimal(a / 10) && t[..|t| - 1] == Decimal(b / 10);
      DecimalIsInjective(a / 10, b / 10);
    }
  }

  lemma NonDigitIsInFront(front: Text, n: nat, at: nat)
    requires at < |front + Decimal(n)| && !IsDigit((front + Decimal(n))[at])
    ensures at < |front|
  {
    assert forall k :: 0 <= k < |Decimal(n)| ==> (front + Decimal(n))[|front| + k] == Decimal(n)[k];
  }

  /** Where a text ends in a separator and digits, the split is unique: digits hold no separator. */
  lemma SuffixSplitsOnce(front1: Text, front2: Text, separator: Text, a: nat, b: nat)
    requires |separator| > 0 && !IsDigit(separator[|separator| - 1])
    requires front1 + separator + Decimal(a) == front2 + separator + Decimal(b)
    ensures front1 == front2 && a == b
  {
    var s, t := front1 + separator, front2 + separator;
    var whole := s + Decimal(a);
    assert whole == t + Decimal(b);
    var last := separator[|separator| - 1];
    assert whole[|s| - 1] == last && whole[|t| - 1] == last;
    NonDigitIsInFront(s, a, |t| - 1);
    NonDigitIsInFront(t, b, |s| - 1);
    assert Decimal(a) == whole[|s|..] == Decimal(b);
    DecimalIsInjective(a, b);
    assert front1 == whole[..|front1|] == front2;
  }

  const MINUS: Unit := 0x2d

  /** A number of either sign, as template literals print it. */
  function SignedDecimal(n: int): Text {
    if n < 0 then [MINUS] + Decimal(-n) else Decimal(n)
  }

  /** Behind a label that ends in `-`, different signed numbers print differently, whatever is
      in front, as long as the label has something else before its `-`. */
  lemma SignedSuffixSplitsOnce(front1: Text, front2: Text, tag: Text, a: int, b: int)
    requires |tag| > 1 && tag[|tag| - 1] == MINUS && tag[|tag| - 2] != MINUS && !IsDigit(tag[|tag| - 2])
    requires front1 + tag + SignedDecimal(a) == front2 + tag + SignedDecimal(b)
    ensures front1 == front2 && a == b
  {
    hide Decimal;
    var s, t := front1 + tag, front2 + tag;
    if a >= 0 && b >= 0 {
      SuffixSplitsOnce(front1, front2, tag, a, b);
    } else if a < 0 && b < 0 {
      BothNegative(s, t, -a, -b);
      assert front1 == s[..|s| - |tag|] == t[..|t| - |tag|] == front2;
    } else if a < 0 {
      MixedSignsDiffer(s, front2, tag, -a, b);
    } else {
      MixedSignsDiffer(t, front1, tag, -b, a);
    }
  }

  lemma BothNegative(s: Text, t: Text, a: nat, b: nat)
    requires s + ([MINUS] + Decimal(a)) == t + ([MINUS] + Decimal(b))
    ensures s == t && a == b
  {
    ConcatAssociates(s, [MINUS], Decimal(a));
    ConcatAssociates(t, [MINUS], Decimal(b));
    SuffixSplitsOnce(s, t, [MINUS], a, b);
  }

  lemma MixedSignsDiffer(s: Text, front: Text, tag: Text, a: nat, b: nat)
    requires |tag| > 1 && tag[|tag| - 1] == MINUS && tag[|tag| - 2] != MINUS
    requires |s| > 0 && s[|s| - 1] == MINUS
    ensures s + ([MINUS] + Decimal(a)) != front + tag + Decimal(b)
  {
    if s + ([MINUS] + Decimal(a)) == front + tag + Decimal(b) {
      var body := front + tag[..|tag| - 1];
      assert front + tag == body + [MINUS];
      ConcatAssociates(s, [MINUS], Decimal(a));
      SuffixSplitsOnce(s, body, [MINUS], a, b);
    }
  }

  lemma ConcatAssociates<T>(a: seq<T>, b: seq<T>, c: seq<T>)
    ensures a + b + c == a + (b + c)
  {
  }
}
