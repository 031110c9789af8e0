/** The inverse of the regex-lite parser: a printer for node lists, and the proof that every
    printed pattern parses back to exactly its nodes. */
module RegexPrinter {
  import opened Wrappers
  import opened Text
  import opened RegexLite
  import opened RegexGrammar
  import opened RegexParser

  // ---- Printing -------------------------------------------------------------------------------

  /** A code point of Unicode, surrogates included. */
  predicate IsCode(code: nat) {
    code < 0x11_0000
  }

  /** One code unit, or one whole surrogate pair. */
  predicate IsCharacter(value: Text) {
    |value| == 1 || (|value| == 2 && IsSurrogatePairAt(value, 0))
  }

  predicate IsPrintable(node: Node) {
    && WellFormedNode(node)
    && match node
       case Literal(value, _) => IsCharacter(value)
       case Class(singles, ranges, _) =>
         && |singles| + |ranges| > 0
         && (forall k :: 0 <= k < |singles| ==> IsCode(singles[k]))
         && (forall k :: 0 <= k < |ranges| ==>
               IsCode(ranges[k].start) && IsCode(ranges[k].end) && ranges[k].start <= ranges[k].end)
       case _ => true
  }

  predicate IsSurrogate(code: nat) {
    0xd800 <= code <= 0xdfff
  }

  /** Half a pair is printed escaped, so that it cannot join what stands next to it. */
  function PrintLiteral(value: Text): Text {
    if |value| == 1 && (IsOperator(value[0]) || IsSurrogate(value[0])) then [ESCAPE] + value else value
  }

  predicate NeedsClassEscape(code: nat) {
    code == BRACKET_CLOSE || code == ESCAPE || code == HYPHEN || IsSurrogate(code)
  }

  function PrintCode(code: nat): (text: Text)
    requires IsCode(code)
    ensures |text| > 0 && text[0] != HYPHEN && text[0] != BRACKET_CLOSE && !IsLowSurrogate(text[0])
  {
    if NeedsClassEscape(code) then [ESCAPE, code] else FromCodePoint(code)
  }

  predicate IsPrintableItem(item: Item) {
    match item
    case One(code) => IsCode(code)
    case Between(range) => IsCode(range.start) && IsCode(range.end) && range.start <= range.end
  }

  function PrintItem(item: Item): (text: Text)
    requires IsPrintableItem(item)
    ensures |text| > 0 && text[0] != HYPHEN && text[0] != BRACKET_CLOSE && !IsLowSurrogate(text[0])
  {
    match item
    case One(code) => PrintCode(code)
    case Between(range) => PrintCode(range.start) + [HYPHEN] + PrintCode(range.end)
  }

  function PrintItems(items: seq<Item>): Text
    requires forall k :: 0 <= k < |items| ==> IsPrintableItem(items[k])
  {
    if items == [] then [] else PrintItem(items[0]) + PrintItems(items[1..])
  }

  /** The members of a class: its ranges, then its single code points. */
  function ItemsOf(singles: seq<nat>, ranges: seq<CodeRange>): (items: seq<Item>)
    ensures |items| == |ranges| + |singles|
  {
    seq(|ranges| + |singles|, k requires 0 <= k < |ranges| + |singles| =>
      if k < |ranges| then Between(ranges[k]) else One(singles[k - |ranges|]))
  }

  function PrintQuantifier(quant: Quantifier): Text
    requires IsBounded(quant)
  {
    if quant == ONCE then []
    else if quant == Quantifier(0, Some(1)) then [QUESTION]
    else
      match quant.max
      case None => if quant.min == 0 then [STAR] else [PLUS]
      case Some(max) =>
        if quant.min == max then [BRACE_OPEN] + Decimal(max) + [BRACE_CLOSE]
        else [BRACE_OPEN] + Decimal(quant.min) + [COMMA] + Decimal(max) + [BRACE_CLOSE]
  }

  function PrintAtom(node: Node): Text
    requires IsPrintable(node)
  {
    match node
    case StartAnchor(_) => [CARET]
    case EndAnchor(_) => [DOLLAR]
    case Dot(_) => [PERIOD]
    case Literal(value, _) => PrintLiteral(value)
    case Class(singles, ranges, _) => [BRACKET_OPEN] + PrintItems(ItemsOf(singles, ranges)) + [BRACKET_CLOSE]
  }

  function PrintNode(node: Node): Text
    requires IsPrintable(node)
  {
    PrintAtom(node) + PrintQuantifier(node.quant)
  }

  function Print(nodes: seq<Node>): Text
    requires forall k :: 0 <= k < |nodes| ==> IsPrintable(nodes[k])
  {
    if nodes == [] then [] else PrintNode(nodes[0]) + Print(nodes[1..])
  }

  // ---- Reading back: parts of a query ------------------------------------------------------------

  /** The part stands in the query at `i`. */
  ghost predicate StandsAt(query: Text, i: nat, part: Text) {
    i + |part| <= |query| && forall k :: 0 <= k < |part| ==> query[i + k] == part[k]
  }

  lemma UnitAt(query: Text, i: nat, part: Text, k: nat)
    requires StandsAt(query, i, part) && k < |part|
    ensures i + k < |query| && query[i + k] == part[k]
  {
  }

  lemma Halves(query: Text, i: nat, a: Text, b: Text)
    requires StandsAt(query, i, a + b)
    ensures StandsAt(query, i, a) && StandsAt(query, i + |a|, b)
  {
    forall k | 0 <= k < |b| ensures query[i + |a| + k] == b[k] {
      assert (a + b)[|a| + k] == b[k];
    }
    forall k | 0 <= k < |a| ensures query[i + k] == a[k] {
      assert (a + b)[k] == a[k];
    }
  }

  // ---- Characters -----------------------------------------------------------------------------------

  lemma SurrogatesOf(code: nat)
    requires 0x1_0000 <= code < 0x11_0000
    ensures var text := FromCodePoint(code);
            |text| == 2 && IsHighSurrogate(text[0]) && IsLowSurrogate(text[1])
            && CodePointAt(text, 0) == code
  {
    var c := code - 0x1_0000;
    assert 0 <= c / 0x400 < 0x400;
    assert c == (c / 0x400) * 0x400 + c % 0x400;
  }

  /** Read at a place, a printed scalar is that scalar, whatever comes after it. */
  lemma ScalarReads(query: Text, i: nat, code: nat)
    requires IsCode(code) && !IsSurrogate(code) && StandsAt(query, i, FromCodePoint(code))
    ensures i < |query| && CodePointAt(query, i) == code && CodePointWidth(query, i) == |FromCodePoint(code)|
  {
    UnitAt(query, i, FromCodePoint(code), 0);
    if code >= 0x1_0000 {
      SurrogatesOf(code);
      UnitAt(query, i, FromCodePoint(code), 1);
      assert IsSurrogatePairAt(query, i) && IsSurrogatePairAt(FromCodePoint(code), 0);
    }
  }

  /** No unit that could make up a pair with a printed half stands at `i`. */
  predicate NoLowAt(query: Text, i: nat) {
    i < |query| ==> !IsLowSurrogate(query[i])
  }

  lemma CodeReads(query: Text, i: nat, code: nat)
    requires IsCode(code) && StandsAt(query, i, PrintCode(code)) && NoLowAt(query, i + |PrintCode(code)|)
    ensures i < |query| && ClassCode(query, i) == Ok((code, i + |PrintCode(code)|))
  {
    UnitAt(query, i, PrintCode(code), 0);
    if NeedsClassEscape(code) {
      UnitAt(query, i, PrintCode(code), 1);
    } else {
      ScalarReads(query, i, code);
      if code >= 0x1_0000 {
        SurrogatesOf(code);
      }
    }
  }

  /** A printed member reads back, unless a hyphen or a second half follows it. */
  lemma ItemReads(query: Text, i: nat, item: Item)
    requires IsPrintableItem(item) && StandsAt(query, i, PrintItem(item))
    requires i + |PrintItem(item)| < |query| && query[i + |PrintItem(item)|] != HYPHEN
             && NoLowAt(query, i + |PrintItem(item)|)
    ensures ClassItem(query, i) == Ok((item, i + |PrintItem(item)|))
  {
    hide ClassCode, PrintCode;
    match item {
      case One(code) => CodeReads(query, i, code);
      case Between(range) => RangeReads(query, i, range);
    }
  }

  lemma RangeReads(query: Text, i: nat, range: CodeRange)
    requires IsPrintableItem(Between(range)) && StandsAt(query, i,
             PrintCode(range.start) + [HYPHEN] + PrintCode(range.end))
    requires NoLowAt(query, i + |PrintCode(range.start) + [HYPHEN] + PrintCode(range.end)|)
    ensures i < |query| && ClassItem(query, i) ==
            Ok((Between(range), i + |PrintCode(range.start) + [HYPHEN] + PrintCode(range.end)|))
  {
    hide ClassCode, PrintCode, StandsAt;
    var low, high := PrintCode(range.start), PrintCode(range.end);
    Halves(query, i, low + [HYPHEN], high);
    Halves(query, i, low, [HYPHEN]);
    FirstUnit(query, i + |low|, [HYPHEN]);
    FirstUnit(query, i + |low| + 1, high);
    CodeReads(query, i, range.start);
    CodeReads(query, i + |low| + 1, range.end);
  }

  lemma FirstUnit(query: Text, i: nat, part: Text)
    requires StandsAt(query, i, part) && |part| > 0
    ensures i < |query| && query[i] == part[0]
  {
    UnitAt(query, i, part, 0);
  }

  lemma {:induction false} ItemsRead(query: Text, i: nat, node: Node, items: seq<Item>)
    requires node.Class? && (forall k :: 0 <= k < |items| ==> IsPrintableItem(items[k]))
    requires |node.singles| + |node.ranges| + |items| > 0
    requires StandsAt(query, i, PrintItems(items) + [BRACKET_CLOSE])
    ensures ClassFrom(query, i, node) == Ok((WithItems(node, items), i + |PrintItems(items)| + 1))
    decreases |items|
  {
    hide StandsAt, PrintItem, ClassItem, IsPrintableItem, WithItem;
    if items == [] {
      assert PrintItems(items) + [BRACKET_CLOSE] == [BRACKET_CLOSE];
      FirstUnit(query, i, [BRACKET_CLOSE]);
      StandsWithin(query, i, [BRACKET_CLOSE]);
    } else {
      var here, rest := PrintItem(items[0]), PrintItems(items[1..]);
      ConcatAssociates(here, rest, [BRACKET_CLOSE]);
      Halves(query, i, here, rest + [BRACKET_CLOSE]);
      FirstUnit(query, i, here);
      FirstIsNoHyphen(query, i + |here|, items[1..]);
      ItemReads(query, i, items[0]);
      OneMemberMore(node, items[0]);
      ItemsRead(query, i + |here|, WithItem(node, items[0]), items[1..]);
    }
  }

  lemma StandsWithin(query: Text, i: nat, part: Text)
    requires StandsAt(query, i, part)
    ensures i + |part| <= |query|
  {
  }

  lemma FirstIsNoHyphen(query: Text, i: nat, items: seq<Item>)
    requires forall k :: 0 <= k < |items| ==> IsPrintableItem(items[k])
    requires StandsAt(query, i, PrintItems(items) + [BRACKET_CLOSE])
    ensures i < |query| && query[i] != HYPHEN && NoLowAt(query, i)
  {
    hide StandsAt, IsPrintableItem, PrintItem;
    FirstUnit(query, i, PrintItems(items) + [BRACKET_CLOSE]);
  }

  lemma {:induction false} RangesThenSingles(node: Node, singles: seq<nat>, ranges: seq<CodeRange>)
    requires node.Class?
    ensures WithItems(node, ItemsOf(singles, ranges)) == Class(node.singles + singles, node.ranges + ranges, node.quant)
    decreases |ranges| + |singles|
  {
    var items := ItemsOf(singles, ranges);
    if |ranges| > 0 {
      var more := node.(ranges := node.ranges + [ranges[0]]);
      assert items[1..] == ItemsOf(singles, ranges[1..]);
      RangesThenSingles(more, singles, ranges[1..]);
      assert node.ranges + [ranges[0]] + ranges[1..] == node.ranges + ranges;
    } else if |singles| > 0 {
      var more := node.(singles := node.singles + [singles[0]]);
      assert items[1..] == ItemsOf(singles[1..], ranges);
      RangesThenSingles(more, singles[1..], ranges);
      assert node.singles + [singles[0]] + singles[1..] == node.singles + singles;
    } else {
      assert node.singles + singles == node.singles && node.ranges + ranges == node.ranges;
    }
  }

  // ---- Quantifiers ------------------------------------------------------------------------------------

  lemma {:induction false} DecimalIsItsNumber(n: nat)
    ensures (forall k :: 0 <= k < |Decimal(n)| ==> IsDigit(Decimal(n)[k])) && NumberOf(Decimal(n)) == n
  {
    if n >= 10 {
      DecimalIsItsNumber(n / 10);
      assert Decimal(n)[..|Decimal(n)| - 1] == Decimal(n / 10);
    } else {
      assert Decimal(n)[..0] == [];
    }
  }

  lemma {:induction false} DigitsEndAt(query: Text, i: nat, end: nat)
    requires i <= end <= |query| && (forall k :: i <= k < end ==> IsDigit(query[k]))
             && (end == |query| || !IsDigit(query[end]))
    ensures DigitsEnd(query, i) == end
    decreases end - i
  {
    if i < end {
      DigitsEndAt(query, i + 1, end);
    }
  }

  lemma NumberReads(query: Text, i: nat, n: nat)
    requires StandsAt(query, i, Decimal(n))
    requires i + |Decimal(n)| < |query| && !IsDigit(query[i + |Decimal(n)|])
    ensures NumberAt(query, i) == Some((n, i + |Decimal(n)|))
  {
    DecimalIsItsNumber(n);
    forall j | i <= j < i + |Decimal(n)| ensures query[j] == Decimal(n)[j - i] {
      UnitAt(query, i, Decimal(n), j - i);
    }
    assert query[i..i + |Decimal(n)|] == Decimal(n);
    DigitsEndAt(query, i, i + |Decimal(n)|);
  }

  lemma QuantifierReads(query: Text, i: nat, quant: Quantifier)
    requires IsBounded(quant) && quant != ONCE && StandsAt(query, i, PrintQuantifier(quant))
    ensures i < |query| && StartsQuantifier(query[i])
    ensures QuantifierAt(query, i) == Ok((quant, i + |PrintQuantifier(quant)|))
  {
    hide StandsAt, NumberAt, NumberOf;
    FirstUnit(query, i, PrintQuantifier(quant));
    StandsWithin(query, i, PrintQuantifier(quant));
    if quant.max.Some? && quant != Quantifier(0, Some(1)) {
      if quant.min == quant.max.value {
        BoundReads(query, i + 1, quant.min, [BRACE_OPEN], [BRACE_CLOSE]);
      } else {
        TwoBoundsRead(query, i, quant.min, quant.max.value);
      }
    }
  }

  lemma TwoBoundsRead(query: Text, i: nat, min: nat, max: nat)
    requires min < max <= MAX_QUANT && StandsAt(query, i,
             [BRACE_OPEN] + Decimal(min) + [COMMA] + Decimal(max) + [BRACE_CLOSE])
    ensures i < |query| && query[i] == BRACE_OPEN
    ensures QuantifierAt(query, i) == Ok((Quantifier(min, Some(max)),
            i + |[BRACE_OPEN] + Decimal(min) + [COMMA] + Decimal(max) + [BRACE_CLOSE]|))
  {
    hide StandsAt, NumberAt, NumberOf;
    var rest := [COMMA] + Decimal(max) + [BRACE_CLOSE];
    assert [BRACE_OPEN] + Decimal(min) + [COMMA] + Decimal(max) + [BRACE_CLOSE] == [BRACE_OPEN] + Decimal(min) + rest;
    BoundReads(query, i + 1, min, [BRACE_OPEN], rest);
    Halves(query, i, [BRACE_OPEN] + Decimal(min), rest);
    BoundReads(query, i + 1 + |Decimal(min)| + 1, max, [COMMA], [BRACE_CLOSE]);
  }

  lemma BoundReads(query: Text, i: nat, n: nat, front: Text, behind: Text)
    requires |front| == 1 && i > 0 && StandsAt(query, i - 1, front + Decimal(n) + behind)
    requires |behind| > 0 && !IsDigit(behind[0])
    ensures NumberAt(query, i) == Some((n, i + |Decimal(n)|))
    ensures i + |Decimal(n)| < |query| && query[i + |Decimal(n)|] == behind[0]
    ensures query[i - 1] == front[0]
  {
    Halves(query, i - 1, front + Decimal(n), behind);
    Halves(query, i - 1, front, Decimal(n));
    FirstUnit(query, i + |Decimal(n)|, behind);
    FirstUnit(query, i - 1, front);
    hide StandsAt;
    NumberReads(query, i, n);
  }

  // ---- Nodes ------------------------------------------------------------------------------------------

  lemma LiteralReads(query: Text, i: nat, value: Text)
    requires IsCharacter(value) && StandsAt(query, i, PrintLiteral(value))
    ensures i < |query| && AtomAt(query, i) == Ok((Literal(value, ONCE), i + |PrintLiteral(value)|))
    ensures !StartsQuantifier(query[i])
  {
    UnitAt(query, i, PrintLiteral(value), 0);
    if |value| == 1 && |PrintLiteral(value)| == 2 {
      UnitAt(query, i, PrintLiteral(value), 1);
      assert [query[i + 1]] == value;
    } else if |value| == 2 {
      UnitAt(query, i, PrintLiteral(value), 1);
      assert CodePoint(query, i) == value;
    } else {
      assert CodePoint(query, i) == value;
    }
  }

  lemma ClassReads(query: Text, i: nat, node: Node)
    requires IsPrintable(node) && node.Class? && StandsAt(query, i, PrintAtom(node))
    ensures i < |query| && AtomAt(query, i) == Ok((node.(quant := ONCE), i + |PrintAtom(node)|))
    ensures !StartsQuantifier(query[i])
  {
    hide StandsAt, ClassFrom, PrintItems, ItemsOf, IsCode;
    var items := ItemsOf(node.singles, node.ranges);
    ItemsArePrintable(node);
    var body := PrintItems(items);
    ConcatAssociates([BRACKET_OPEN], body, [BRACKET_CLOSE]);
    Halves(query, i, [BRACKET_OPEN], body + [BRACKET_CLOSE]);
    FirstUnit(query, i, [BRACKET_OPEN]);
    ItemsRead(query, i + 1, EMPTY_CLASS, items);
    RangesThenSingles(EMPTY_CLASS, node.singles, node.ranges);
    assert [] + node.singles == node.singles && [] + node.ranges == node.ranges;
  }

  lemma ItemsArePrintable(node: Node)
    requires IsPrintable(node) && node.Class?
    ensures forall k :: 0 <= k < |ItemsOf(node.singles, node.ranges)| ==>
              IsPrintableItem(ItemsOf(node.singles, node.ranges)[k])
  {
  }

  lemma AtomReads(query: Text, i: nat, node: Node)
    requires IsPrintable(node) && StandsAt(query, i, PrintAtom(node))
    ensures i < |query| && AtomAt(query, i) == Ok((node.(quant := ONCE), i + |PrintAtom(node)|))
    ensures !StartsQuantifier(query[i])
  {
    match node {
      case Literal(value, _) => LiteralReads(query, i, value);
      case Class(_, _, _) => ClassReads(query, i, node);
      case _ =>
        UnitAt(query, i, PrintAtom(node), 0);
    }
  }

  lemma NodeReads(query: Text, i: nat, node: Node)
    requires IsPrintable(node) && StandsAt(query, i, PrintNode(node))
    requires var end := i + |PrintNode(node)|; end == |query| || !StartsQuantifier(query[end])
    ensures i < |query| && NodeAt(query, i) == Ok((node, i + |PrintNode(node)|)) && !StartsQuantifier(query[i])
  {
    hide IsCharacter, PrintAtom, PrintQuantifier, AtomAt, QuantifierAt, StandsAt;
    StandsWithin(query, i, PrintNode(node));
    Halves(query, i, PrintAtom(node), PrintQuantifier(node.quant));
    AtomReads(query, i, node);
    if node.quant == ONCE {
      OncePrintsNothing();
    } else {
      QuantifierReads(query, i + |PrintAtom(node)|, node.quant);
    }
  }

  lemma OncePrintsNothing()
    ensures PrintQuantifier(ONCE) == []
  {
  }

  lemma {:induction false} NodesRead(query: Text, i: nat, before: seq<Node>, nodes: seq<Node>)
    requires (forall k :: 0 <= k < |nodes| ==> IsPrintable(nodes[k])) && StandsAt(query, i, Print(nodes))
             && i + |Print(nodes)| == |query|
    ensures NodesFrom(query, i, before) == Ok(before + nodes)
    ensures nodes != [] ==> i < |query| && !StartsQuantifier(query[i])
    decreases |nodes|
  {
    hide IsPrintable, PrintNode, NodeAt, StandsAt;
    if nodes == [] {
      assert before + nodes == before;
    } else {
      var here, rest := PrintNode(nodes[0]), Print(nodes[1..]);
      Halves(query, i, here, rest);
      NodesRead(query, i + |here|, before + [nodes[0]], nodes[1..]);
      if nodes[1..] == [] {
        assert rest == [];
      }
      NodeReads(query, i, nodes[0]);
      assert before + [nodes[0]] + nodes[1..] == before + nodes;
    }
  }

  /** Every node list a pattern can say, printed within the length limit, parses back to itself. */
  lemma PrintedPatternsParse(nodes: seq<Node>)
    requires |nodes| > 0 && (forall k :: 0 <= k < |nodes| ==> IsPrintable(nodes[k]))
             && |Print(nodes)| <= MAX_PATTERN_UNITS
    ensures Parse(Print(nodes)) == Ok(nodes)
  {
    hide IsPrintable, Print;
    var query := Print(nodes);
    assert StandsAt(query, 0, query);
    NodesRead(query, 0, [], nodes);
    assert [] + nodes == nodes;
  }

  // ---- What parsing can return ----------------------------------------------------------------------

  lemma CodeIsInUnicode(text: Text, at: nat)
    requires at < |text|
    ensures IsCode(CodePointAt(text, at)) && IsCharacter(CodePoint(text, at))
  {
  }

  lemma ClassCodeIsInUnicode(pattern: Text, i: nat)
    requires i < |pattern| && ClassCode(pattern, i).Ok?
    ensures IsCode(ClassCode(pattern, i).value.0)
  {
    CodeIsInUnicode(pattern, if pattern[i] == ESCAPE then i + 1 else i);
  }

  lemma ItemIsPrintable(pattern: Text, i: nat)
    requires i < |pattern| && ClassItem(pattern, i).Ok?
    ensures IsPrintableItem(ClassItem(pattern, i).value.0)
  {
    hide ClassCode, IsCode;
    var low := ClassCode(pattern, i);
    ClassCodeIsInUnicode(pattern, i);
    if ClassItem(pattern, i).value.0.Between? {
      ClassCodeIsInUnicode(pattern, low.value.1 + 1);
    }
  }

  predicate HasPrintableMembers(node: Node) {
    && node.Class?
    && (forall k :: 0 <= k < |node.singles| ==> IsCode(node.singles[k]))
    && (forall k :: 0 <= k < |node.ranges| ==> IsPrintableItem(Between(node.ranges[k])))
  }

  lemma {:induction false} ClassIsPrintable(pattern: Text, i: nat, node: Node)
    requires i <= |pattern| && HasPrintableMembers(node) && ClassFrom(pattern, i, node).Ok?
    ensures var class_ := ClassFrom(pattern, i, node).value.0;
            HasPrintableMembers(class_) && |class_.singles| + |class_.ranges| > 0
    decreases |pattern| - i
  {
    hide ClassItem;
    if i < |pattern| && pattern[i] != BRACKET_CLOSE {
      ItemIsPrintable(pattern, i);
      var item := ClassItem(pattern, i).value;
      ClassIsPrintable(pattern, item.1, WithItem(node, item.0));
    }
  }

  lemma AtomIsPrintable(query: Text, i: nat)
    requires i < |query| && AtomAt(query, i).Ok?
    ensures IsPrintable(AtomAt(query, i).value.0)
  {
    hide ClassFrom, IsCharacter;
    CodeIsInUnicode(query, i);
    if query[i] == BRACKET_OPEN {
      ClassIsPrintable(query, i + 1, EMPTY_CLASS);
    } else if query[i] == ESCAPE {
      OneUnitIsCharacter(AtomAt(query, i).value.0.value);
    }
  }

  lemma OneUnitIsCharacter(value: Text)
    requires |value| == 1
    ensures IsCharacter(value)
  {
  }

  lemma NodeIsPrintable(query: Text, i: nat)
    requires i < |query| && NodeAt(query, i).Ok?
    ensures IsPrintable(NodeAt(query, i).value.0)
  {
    hide AtomAt, QuantifierAt, IsCharacter, IsCode;
    AtomIsPrintable(query, i);
  }

  lemma {:induction false} NodesArePrintable(query: Text, i: nat, nodes: seq<Node>)
    requires i <= |query| && NodesFrom(query, i, nodes).Ok? && forall k :: 0 <= k < |nodes| ==> IsPrintable(nodes[k])
    ensures forall k :: 0 <= k < |NodesFrom(query, i, nodes).value| ==> IsPrintable(NodesFrom(query, i, nodes).value[k])
    decreases |query| - i
  {
    hide IsPrintable, NodeAt;
    if i < |query| {
      NodeIsPrintable(query, i);
      var node := NodeAt(query, i).value;
      NodesArePrintable(query, node.1, nodes + [node.0]);
    }
  }

  ghost predicate IsRead(nodes: seq<Node>) {
    exists query: Text :: NodesFrom(query, 0, []) == Ok(nodes)
  }

  /** The printable node lists are exactly those that reading a pattern of any length can return. */
  lemma PrintableIsWhatParsingReturns(nodes: seq<Node>)
    ensures IsRead(nodes) <==> forall k :: 0 <= k < |nodes| ==> IsPrintable(nodes[k])
  {
    hide IsPrintable;
    if IsRead(nodes) {
      var query: Text :| NodesFrom(query, 0, []) == Ok(nodes);
      NodesArePrintable(query, 0, []);
    }
    if forall k :: 0 <= k < |nodes| ==> IsPrintable(nodes[k]) {
      var query := Print(nodes);
      assert StandsAt(query, 0, query);
      NodesRead(query, 0, [], nodes);
      assert [] + nodes == nodes;
    }
  }
}
