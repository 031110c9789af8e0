/** The grammar of regex-lite patterns, apart from any way of reading them: what it is for a
    stretch of a query to say a node. The parser of core/src/search.ts accepts exactly what
    the grammar says. */
module RegexGrammar {
  import opened Wrappers
  import opened Text
  import opened RegexLite
  import opened RegexParser

  // ---- Quantifiers ------------------------------------------------------------------------------

  predicate AreDigits(query: Text, i: nat, j: nat) {
    i < j <= |query| && forall k :: i <= k < j ==> IsDigit(query[k])
  }

  /** `{n}`: the number ends at `mid`. */
  predicate SaysCount(query: Text, i: nat, mid: nat, j: nat) {
    && i < |query| && query[i] == BRACE_OPEN
    && AreDigits(query, i + 1, mid)
    && mid < |query| && query[mid] == BRACE_CLOSE && j == mid + 1
  }

  /** `{n,m}`: the numbers end at `comma` and `mid`. */
  predicate SaysBounds(query: Text, i: nat, comma: nat, mid: nat, j: nat) {
    && i < |query| && query[i] == BRACE_OPEN
    && AreDigits(query, i + 1, comma)
    && comma < |query| && query[comma] == COMMA
    && AreDigits(query, comma + 1, mid)
    && mid < |query| && query[mid] == BRACE_CLOSE && j == mid + 1
  }

  function CountSaid(query: Text, i: nat, mid: nat): Quantifier
    requires AreDigits(query, i + 1, mid)
  {
    var n := NumberOf(query[i + 1..mid]);
    Quantifier(n, Some(n))
  }

  function BoundsSaid(query: Text, i: nat, comma: nat, mid: nat): Quantifier
    requires AreDigits(query, i + 1, comma) && AreDigits(query, comma + 1, mid)
  {
    Quantifier(NumberOf(query[i + 1..comma]), Some(NumberOf(query[comma + 1..mid])))
  }

  /** The stretch has the form of a quantifier in braces, with these bounds, in order or not. */
  ghost predicate SaysBraces(query: Text, i: nat, j: nat, quant: Quantifier) {
    || (exists mid: nat :: SaysCount(query, i, mid, j) && quant == CountSaid(query, i, mid))
    || (exists comma: nat, mid: nat :: SaysBounds(query, i, comma, mid, j) && quant == BoundsSaid(query, i, comma, mid))
  }

  ghost predicate SaysQuantifier(query: Text, i: nat, j: nat, quant: Quantifier) {
    && i < |query|
    && (|| (query[i] == QUESTION && j == i + 1 && quant == Quantifier(0, Some(1)))
        || (query[i] == STAR && j == i + 1 && quant == Quantifier(0, None))
        || (query[i] == PLUS && j == i + 1 && quant == Quantifier(1, None))
        || (SaysBraces(query, i, j, quant) && IsBounded(quant)))
  }

  lemma {:induction false} DigitsEndThere(query: Text, i: nat, j: nat)
    requires i <= j < |query| && (forall k :: i <= k < j ==> IsDigit(query[k])) && !IsDigit(query[j])
    ensures DigitsEnd(query, i) == j
    decreases j - i
  {
    if i < j {
      DigitsEndThere(query, i + 1, j);
    }
  }

  lemma NumberIsThere(query: Text, i: nat, j: nat)
    requires AreDigits(query, i, j) && j < |query| && !IsDigit(query[j])
    ensures NumberAt(query, i) == Some((NumberOf(query[i..j]), j))
  {
    DigitsEndThere(query, i, j);
  }

  lemma NumberFound(query: Text, i: nat)
    requires i <= |query| && NumberAt(query, i).Some?
    ensures var (n, j) := NumberAt(query, i).value; AreDigits(query, i, j) && n == NumberOf(query[i..j])
  {
  }

  function BracesResult(quant: Quantifier, j: nat): Result<(Quantifier, nat), ErrorCode> {
    if IsBounded(quant) then Ok((quant, j)) else Err(InvalidBound)
  }

  /** A stretch in the form of a quantifier in braces is read as one. */
  lemma BracesAreRead(query: Text, i: nat, j: nat, quant: Quantifier)
    requires SaysBraces(query, i, j, quant)
    ensures QuantifierAt(query, i) == BracesResult(quant, j)
  {
    hide NumberAt, NumberOf;
    if mid: nat :| SaysCount(query, i, mid, j) && quant == CountSaid(query, i, mid) {
      NumberIsThere(query, i + 1, mid);
    } else {
      var comma: nat, mid: nat :| SaysBounds(query, i, comma, mid, j) && quant == BoundsSaid(query, i, comma, mid);
      NumberIsThere(query, i + 1, comma);
      NumberIsThere(query, comma + 1, mid);
    }
  }

  /** Where reading braces does not find them malformed, a stretch has their form. */
  lemma BracesAreThere(query: Text, i: nat)
    requires i < |query| && query[i] == BRACE_OPEN && QuantifierAt(query, i) != Err(MalformedPattern)
    ensures exists j: nat, quant :: SaysBraces(query, i, j, quant)
  {
    hide NumberAt, NumberOf;
    NumberFound(query, i + 1);
    var (first, end) := NumberAt(query, i + 1).value;
    if query[end] == BRACE_CLOSE {
      assert SaysCount(query, i, end, end + 1);
      assert SaysBraces(query, i, end + 1, CountSaid(query, i, end));
    } else {
      NumberFound(query, end + 1);
      var (second, mid) := NumberAt(query, end + 1).value;
      assert SaysBounds(query, i, end, mid, mid + 1);
      assert SaysBraces(query, i, mid + 1, BoundsSaid(query, i, end, mid));
    }
  }

  /** Reading a quantifier: it is one the grammar says, or braces with bounds out of order or
      above the limit, or malformed. */
  lemma QuantifierMeaning(query: Text, i: nat)
    requires i < |query| && StartsQuantifier(query[i])
    ensures forall j: nat, quant :: QuantifierAt(query, i) == Ok((quant, j)) <==> SaysQuantifier(query, i, j, quant)
    ensures QuantifierAt(query, i) == Err(InvalidBound) <==>
            exists j: nat, quant :: SaysBraces(query, i, j, quant) && !IsBounded(quant)
    ensures QuantifierAt(query, i) == Err(MalformedPattern) <==>
            query[i] == BRACE_OPEN && !exists j: nat, quant :: SaysBraces(query, i, j, quant)
  {
    hide NumberAt, SaysBraces;
    forall j: nat, quant | SaysBraces(query, i, j, quant)
      ensures query[i] == BRACE_OPEN && QuantifierAt(query, i) == BracesResult(quant, j)
    {
      BracesAreRead(query, i, j, quant);
      BracesStart(query, i, j, quant);
    }
    if query[i] == BRACE_OPEN && QuantifierAt(query, i) != Err(MalformedPattern) {
      BracesAreThere(query, i);
    }
  }

  lemma BracesStart(query: Text, i: nat, j: nat, quant: Quantifier)
    requires SaysBraces(query, i, j, quant)
    ensures i < |query| && query[i] == BRACE_OPEN
  {
  }

  // ---- Classes ----------------------------------------------------------------------------------

  /** The stretch is one whole code point. */
  predicate SaysCharacter(query: Text, i: nat, j: nat, code: nat) {
    i < |query| && j == i + CodePointWidth(query, i) && code < 0x11_0000 && query[i..j] == FromCodePoint(code)
  }

  /** One code point of a class: bare or behind a backslash, which a digit may not follow and
      which makes control characters of five letters. */
  predicate SaysCode(query: Text, i: nat, j: nat, code: nat) {
    && i < |query|
    && if query[i] != ESCAPE then SaysCharacter(query, i, j, code)
       else
         && i + 1 < |query| && !IsDigit(query[i + 1])
         && match ControlLetter(query[i + 1])
            case Some(control) => j == i + 2 && code == control
            case None => SaysCharacter(query, i + 1, j, code)
  }

  predicate IsRange(query: Text, i: nat, mid: nat, j: nat, range: CodeRange) {
    && SaysCode(query, i, mid, range.start)
    && mid + 1 < |query| && query[mid] == HYPHEN && query[mid + 1] != BRACKET_CLOSE
    && SaysCode(query, mid + 1, j, range.end)
    && range.start <= range.end
  }

  /** One member: a code point that no hyphen follows, or two in order around a hyphen. */
  ghost predicate SaysItem(query: Text, i: nat, j: nat, item: Item) {
    && i < |query| && query[i] != BRACKET_CLOSE
    && match item
       case One(code) => SaysCode(query, i, j, code) && (j < |query| ==> query[j] != HYPHEN)
       case Between(range) => exists mid: nat :: IsRange(query, i, mid, j, range)
  }

  ghost predicate SaysItems(query: Text, i: nat, j: nat, items: seq<Item>)
    decreases |items|
  {
    if items == [] then i == j
    else exists mid: nat :: SaysItem(query, i, mid, items[0]) && SaysItems(query, mid, j, items[1..])
  }

  function WithItems(node: Node, items: seq<Item>): (more: Node)
    requires node.Class?
    ensures more.Class? && more.quant == node.quant
    decreases |items|
  {
    if items == [] then node else WithItems(WithItem(node, items[0]), items[1..])
  }

  /** The rest of a class, up to and with its bracket. */
  ghost predicate SaysMembers(query: Text, i: nat, j: nat, items: seq<Item>) {
    0 < j <= |query| && query[j - 1] == BRACKET_CLOSE && SaysItems(query, i, j - 1, items)
  }

  lemma CharacterMeaning(query: Text, i: nat, j: nat, code: nat)
    requires i < |query|
    ensures SaysCharacter(query, i, j, code) <==> code == CodePointAt(query, i) && j == i + CodePointWidth(query, i)
  {
    CodePointRoundTrip(query, i);
    if SaysCharacter(query, i, j, code) {
      CodePointIsUnique(query, i, code);
    }
  }

  lemma CodeMeaning(query: Text, i: nat, j: nat, code: nat)
    requires i < |query|
    ensures ClassCode(query, i) == Ok((code, j)) <==> SaysCode(query, i, j, code)
  {
    hide SaysCharacter;
    CharacterMeaning(query, i, j, code);
    if i + 1 < |query| {
      CharacterMeaning(query, i + 1, j, code);
    }
  }

  lemma ItemIsSaid(query: Text, i: nat)
    requires i < |query| && query[i] != BRACKET_CLOSE && ClassItem(query, i).Ok?
    ensures SaysItem(query, i, ClassItem(query, i).value.1, ClassItem(query, i).value.0)
  {
    hide ClassCode, SaysCode;
    var (item, j) := ClassItem(query, i).value;
    var (low, next) := ClassCode(query, i).value;
    CodeMeaning(query, i, next, low);
    if item.Between? {
      CodeMeaning(query, next + 1, j, item.range.end);
      assert IsRange(query, i, next, j, item.range);
    }
  }

  lemma ItemIsRead(query: Text, i: nat, j: nat, item: Item)
    requires SaysItem(query, i, j, item)
    ensures ClassItem(query, i) == Ok((item, j))
  {
    hide ClassCode, SaysCode;
    match item {
      case One(code) => CodeMeaning(query, i, j, code);
      case Between(range) =>
        var mid: nat :| IsRange(query, i, mid, j, range);
        CodeMeaning(query, i, mid, range.start);
        CodeMeaning(query, mid + 1, j, range.end);
    }
  }

  lemma OneMemberMore(node: Node, item: Item)
    requires node.Class?
    ensures |WithItem(node, item).singles| + |WithItem(node, item).ranges| == |node.singles| + |node.ranges| + 1
  {
  }

  lemma {:induction false} MembersAreSaid(query: Text, i: nat, node: Node) returns (items: seq<Item>)
    requires i <= |query| && node.Class? && ClassFrom(query, i, node).Ok?
    ensures var (out, j) := ClassFrom(query, i, node).value;
            SaysMembers(query, i, j, items) && out == WithItems(node, items)
                && |node.singles| + |node.ranges| + |items| > 0
    decreases |query| - i
  {
    hide ClassItem, SaysItem, WithItem;
    if query[i] == BRACKET_CLOSE {
      items := [];
    } else {
      ItemIsSaid(query, i);
      var (item, next) := ClassItem(query, i).value;
      OneMemberMore(node, item);
      var rest := MembersAreSaid(query, next, WithItem(node, item));
      items := [item] + rest;
      assert items[1..] == rest;
    }
  }

  lemma {:induction false} MembersAreRead(query: Text, i: nat, j: nat, node: Node, items: seq<Item>)
    requires node.Class? && |node.singles| + |node.ranges| + |items| > 0 && SaysMembers(query, i, j, items)
    ensures i <= |query| && ClassFrom(query, i, node) == Ok((WithItems(node, items), j))
    decreases |items|
  {
    hide ClassItem, SaysItem, WithItem;
    if items != [] {
      var mid: nat :| SaysItem(query, i, mid, items[0]) && SaysItems(query, mid, j - 1, items[1..]);
      ItemIsRead(query, i, mid, items[0]);
      ItemStartsNoBracket(query, i, mid, items[0]);
      OneMemberMore(node, items[0]);
      MembersAreRead(query, mid, j, WithItem(node, items[0]), items[1..]);
    }
  }

  lemma ItemStartsNoBracket(query: Text, i: nat, j: nat, item: Item)
    requires SaysItem(query, i, j, item)
    ensures i < |query| && query[i] != BRACKET_CLOSE
  {
  }

  /** The stretch says a class: its members in brackets, at least one. */
  ghost predicate SaysClass(query: Text, i: nat, j: nat, node: Node) {
    && i < |query| && query[i] == BRACKET_OPEN
    && exists items :: items != [] && SaysMembers(query, i + 1, j, items) && node == WithItems(EMPTY_CLASS, items)
  }

  lemma ClassMeaning(query: Text, i: nat)
    requires i < |query| && query[i] == BRACKET_OPEN
    ensures forall j: nat, node :: ClassFrom(query, i + 1, EMPTY_CLASS) == Ok((node, j)) <==>
              SaysClass(query, i, j, node)
  {
    hide SaysMembers, WithItems;
    forall j: nat, node
      ensures ClassFrom(query, i + 1, EMPTY_CLASS) == Ok((node, j)) <==> SaysClass(query, i, j, node)
    {
      if ClassFrom(query, i + 1, EMPTY_CLASS) == Ok((node, j)) {
        var items := MembersAreSaid(query, i + 1, EMPTY_CLASS);
      }
      if SaysClass(query, i, j, node) {
        var items :| items != [] && SaysMembers(query, i + 1, j, items) && node == WithItems(EMPTY_CLASS, items);
        MembersAreRead(query, i + 1, j, EMPTY_CLASS, items);
      }
    }
  }

  // ---- Patterns ---------------------------------------------------------------------------------

  predicate IsOperator(u: Unit) {
    || u == PAREN_OPEN || u == PAREN_CLOSE || u == BAR || u == STAR || u == PLUS || u == QUESTION || u == BRACE_OPEN
    || u == BRACE_CLOSE || u == CARET || u == DOLLAR || u == PERIOD || u == BRACKET_OPEN || u == ESCAPE
  }

  /** A literal: a whole character that is no operator, or one unit behind a backslash. */
  predicate SaysLiteral(query: Text, i: nat, j: nat, value: Text) {
    && i < |query|
    && if query[i] == ESCAPE then
         && i + 1 < |query| && j == i + 2 && !IsDigit(query[i + 1])
         && match ControlLetter(query[i + 1])
            case Some(control) => value == [control]
            case None => value == [query[i + 1]]
       else
         !IsOperator(query[i]) && j == i + CodePointWidth(query, i) && value == query[i..j]
  }

  ghost predicate SaysAtom(query: Text, i: nat, j: nat, node: Node) {
    && i < |query| && node.quant == ONCE
    && match node
       case StartAnchor(_) => query[i] == CARET && j == i + 1
       case EndAnchor(_) => query[i] == DOLLAR && j == i + 1
       case Dot(_) => query[i] == PERIOD && j == i + 1
       case Literal(value, _) => SaysLiteral(query, i, j, value)
       case Class(_, _, _) => SaysClass(query, i, j, node)
  }

  /** The atom ends at `mid`; a quantifier behind it is its own, and anchors take none. */
  ghost predicate SaysNodeVia(query: Text, i: nat, mid: nat, j: nat, node: Node) {
    && SaysAtom(query, i, mid, node.(quant := ONCE))
    && if mid < |query| && StartsQuantifier(query[mid]) then node.Consuming()
        && SaysQuantifier(query, mid, j, node.quant)
       else node.quant == ONCE && j == mid
  }

  ghost predicate SaysNode(query: Text, i: nat, j: nat, node: Node) {
    exists mid: nat :: SaysNodeVia(query, i, mid, j, node)
  }

  /** From `i` on, the query says these nodes and no more. */
  ghost predicate SaysNodes(query: Text, i: nat, nodes: seq<Node>)
    decreases |nodes|
  {
    if nodes == [] then i == |query|
    else exists j: nat :: SaysNode(query, i, j, nodes[0]) && SaysNodes(query, j, nodes[1..])
  }

  lemma AtomMeaning(query: Text, i: nat)
    requires i < |query|
    ensures forall j: nat, node :: AtomAt(query, i) == Ok((node, j)) <==> SaysAtom(query, i, j, node)
  {
    hide ClassFrom, SaysClass;
    if query[i] == BRACKET_OPEN {
      ClassMeaning(query, i);
      ClassesAreSaidInBrackets(query, i);
    } else {
      NoClassWithoutBracket(query, i);
    }
  }

  lemma NoClassWithoutBracket(query: Text, i: nat)
    requires i < |query| && query[i] != BRACKET_OPEN
    ensures forall j: nat, node :: !SaysClass(query, i, j, node)
  {
  }

  lemma ClassesAreSaidInBrackets(query: Text, i: nat)
    requires i < |query| && query[i] == BRACKET_OPEN
    ensures forall j: nat, node :: SaysClass(query, i, j, node) ==> node.Class? && node.quant == ONCE
  {
  }

  lemma NodeMeaning(query: Text, i: nat)
    requires i < |query|
    ensures forall j: nat, node :: NodeAt(query, i) == Ok((node, j)) <==> SaysNode(query, i, j, node)
  {
    hide AtomAt, SaysAtom, QuantifierAt, SaysQuantifier;
    AtomMeaning(query, i);
    forall j: nat, node ensures NodeAt(query, i) == Ok((node, j)) <==> SaysNode(query, i, j, node) {
      if NodeAt(query, i) == Ok((node, j)) {
        var (atom, mid) := AtomAt(query, i).value;
        assert atom == node.(quant := ONCE);
        if mid < |query| && StartsQuantifier(query[mid]) {
          QuantifierMeaning(query, mid);
        }
        assert SaysNodeVia(query, i, mid, j, node);
      }
      if SaysNode(query, i, j, node) {
        var mid: nat :| SaysNodeVia(query, i, mid, j, node);
        assert AtomAt(query, i) == Ok((node.(quant := ONCE), mid));
        if mid < |query| && StartsQuantifier(query[mid]) {
          QuantifierMeaning(query, mid);
        }
      }
    }
  }

  lemma {:induction false} NodesAreSaid(query: Text, i: nat, before: seq<Node>) returns (nodes: seq<Node>)
    requires i <= |query| && NodesFrom(query, i, before).Ok?
    ensures NodesFrom(query, i, before).value == before + nodes && SaysNodes(query, i, nodes)
    decreases |query| - i
  {
    hide NodeAt, SaysNode;
    if i == |query| {
      nodes := [];
    } else {
      NodeMeaning(query, i);
      var (node, j) := NodeAt(query, i).value;
      var rest := NodesAreSaid(query, j, before + [node]);
      nodes := [node] + rest;
      assert nodes[1..] == rest && before + [node] + rest == before + nodes;
    }
  }

  lemma {:induction false} NodesAreRead(query: Text, i: nat, before: seq<Node>, nodes: seq<Node>)
    requires SaysNodes(query, i, nodes)
    ensures i <= |query| && NodesFrom(query, i, before) == Ok(before + nodes)
    decreases |nodes|
  {
    hide NodeAt, SaysNode;
    if nodes == [] {
      assert before + nodes == before;
    } else {
      var j: nat :| SaysNode(query, i, j, nodes[0]) && SaysNodes(query, j, nodes[1..]);
      NodeStartsWithin(query, i, j, nodes[0]);
      NodeMeaning(query, i);
      NodesAreRead(query, j, before + [nodes[0]], nodes[1..]);
      assert before + [nodes[0]] + nodes[1..] == before + nodes;
    }
  }

  lemma NodeStartsWithin(query: Text, i: nat, j: nat, node: Node)
    requires SaysNode(query, i, j, node)
    ensures i < |query|
  {
  }

  /** The parser accepts exactly the queries within the length limit that say some nodes, and
      returns exactly those nodes. */
  lemma ParseMeaning(query: Text)
    ensures forall nodes :: Parse(query) == Ok(nodes) <==>
              |query| <= MAX_PATTERN_UNITS && nodes != [] && SaysNodes(query, 0, nodes)
    ensures Parse(query).Err? <==> |query| > MAX_PATTERN_UNITS || !exists nodes ::
              nodes != [] && SaysNodes(query, 0, nodes)
  {
    hide SaysNodes;
    forall nodes
      ensures Parse(query) == Ok(nodes) <==> |query| <= MAX_PATTERN_UNITS && nodes != [] && SaysNodes(query, 0, nodes)
    {
      if Parse(query) == Ok(nodes) {
        var said := NodesAreSaid(query, 0, []);
        assert [] + said == said;
      }
      if SaysNodes(query, 0, nodes) {
        NodesAreRead(query, 0, [], nodes);
        assert [] + nodes == nodes;
      }
    }
  }
}
