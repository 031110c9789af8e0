/** The regex-lite parser (core/src/search.ts), and its inverse: a printer whose patterns parse
    back to the nodes they were printed from. */
module RegexParser {
  import opened Wrappers
  import opened Text
  import opened RegexLite

  datatype ErrorCode = EmptyQuery | PatternTooLong | UnsupportedSyntax | MalformedPattern | InvalidBound | ResultLimit

  const MAX_PATTERN_UNITS: nat := 256

  const PAREN_OPEN: Unit := 0x28
  const PAREN_CLOSE: Unit := 0x29
  const STAR: Unit := 0x2a
  const PLUS: Unit := 0x2b
  const COMMA: Unit := 0x2c
  const HYPHEN: Unit := 0x2d
  const PERIOD: Unit := 0x2e
  const QUESTION: Unit := 0x3f
  const DOLLAR: Unit := 0x24
  const BRACKET_OPEN: Unit := 0x5b
  const ESCAPE: Unit := 0x5c
  const BRACKET_CLOSE: Unit := 0x5d
  const CARET: Unit := 0x5e
  const BRACE_OPEN: Unit := 0x7b
  const BAR: Unit := 0x7c
  const BRACE_CLOSE: Unit := 0x7d

  // ---- Escapes --------------------------------------------------------------------------------

  /** What the letters n, r, t, f and v stand for behind a backslash. */
  function ControlLetter(u: Unit): (control: Option<Unit>) {
    if u == 0x6e then Some(0x0a)
    else if u == 0x72 then Some(0x0d)
    else if u == 0x74 then Some(0x09)
    else if u == 0x66 then Some(0x0c)
    else if u == 0x76 then Some(0x0b)
    else None
  }

  /** An escape outside a class: one code unit, whatever follows it. */
  function ParseEscapedChar(pattern: Text, at: nat): Result<(Text, nat), ErrorCode>
    requires at < |pattern|
  {
    if at + 1 == |pattern| then Err(MalformedPattern)
    else if IsDigit(pattern[at + 1]) then Err(UnsupportedSyntax)
    else
      match ControlLetter(pattern[at + 1])
      case Some(control) => Ok(([control], at + 2))
      case None => Ok(([pattern[at + 1]], at + 2))
  }

  /** An escape inside a class: one code point. */
  function ParseClassEscapedChar(pattern: Text, at: nat): (parsed: Result<(nat, nat), ErrorCode>)
    requires at < |pattern|
    ensures parsed.Ok? ==> at + 2 <= parsed.value.1 <= |pattern|
  {
    if at + 1 == |pattern| then Err(MalformedPattern)
    else if IsDigit(pattern[at + 1]) then Err(UnsupportedSyntax)
    else
      match ControlLetter(pattern[at + 1])
      case Some(control) => Ok((control, at + 2))
      case None => Ok((CodePointAt(pattern, at + 1), at + 1 + CodePointWidth(pattern, at + 1)))
  }

  // ---- Quantifiers ----------------------------------------------------------------------------

  function DigitsEnd(pattern: Text, at: nat): (end: nat)
    requires at <= |pattern|
    ensures at <= end <= |pattern|
    ensures forall k :: at <= k < end ==> IsDigit(pattern[k])
    ensures end < |pattern| ==> !IsDigit(pattern[end])
    decreases |pattern| - at
  {
    if at == |pattern| || !IsDigit(pattern[at]) then at else DigitsEnd(pattern, at + 1)
  }

  function NumberOf(digits: Text): nat
    requires forall k :: 0 <= k < |digits| ==> IsDigit(digits[k])
  {
    if digits == [] then 0
    else
      assert IsDigit(digits[|digits| - 1]);
      10 * NumberOf(digits[..|digits| - 1]) + (digits[|digits| - 1] - 0x30)
  }

  lemma OneDigitMore(pattern: Text, start: nat, end: nat)
    requires start <= end < |pattern| && forall k :: start <= k < end + 1 ==> IsDigit(pattern[k])
    ensures var unit: int := pattern[end];
            NumberOf(pattern[start..end + 1]) == 10 * NumberOf(pattern[start..end]) + (unit - 0x30)
  {
    var digits := pattern[start..end + 1];
    assert digits[..|digits| - 1] == pattern[start..end];
    assert digits[|digits| - 1] == pattern[end];
  }

  /** The number at a place and the place behind it, if there is a digit at all. */
  function NumberAt(pattern: Text, start: nat): (number: Option<(nat, nat)>)
    requires start <= |pattern|
    ensures number.Some? ==> start < number.value.1 <= |pattern|
  {
    var end := DigitsEnd(pattern, start);
    if end == start then None else Some((NumberOf(pattern[start..end]), end))
  }

  method ReadNumber(pattern: Text, start: nat) returns (number: Option<(nat, nat)>)
    requires start <= |pattern|
    ensures number == NumberAt(pattern, start)
  {
    if start >= |pattern| || !IsDigit(pattern[start]) {
      return None;
    }
    var value: nat, end := 0, start;
    while end < |pattern| && IsDigit(pattern[end])
      invariant start <= end <= |pattern|
      invariant forall k :: start <= k < end ==> IsDigit(pattern[k])
      invariant value == NumberOf(pattern[start..end])
      invariant DigitsEnd(pattern, end) == DigitsEnd(pattern, start)
    {
      OneDigitMore(pattern, start, end);
      value := value * 10 + (pattern[end] - 0x30);
      end := end + 1;
    }
    return Some((value, end));
  }

  /** The second half of a bounded quantifier, from behind its first number. */
  function BoundsFrom(pattern: Text, first: nat, at: nat): (parsed: Result<(Quantifier, nat), ErrorCode>)
    requires at <= |pattern|
    ensures parsed.Ok? ==> at < parsed.value.1 <= |pattern| && IsBounded(parsed.value.0)
  {
    if at < |pattern| && pattern[at] == BRACE_CLOSE then
      if first > MAX_QUANT then Err(InvalidBound) else Ok((Quantifier(first, Some(first)), at + 1))
    else if at == |pattern| || pattern[at] != COMMA then Err(MalformedPattern)
    else
      match NumberAt(pattern, at + 1)
      case None => Err(MalformedPattern)
      case Some((second, end)) =>
        if end == |pattern| || pattern[end] != BRACE_CLOSE then Err(MalformedPattern)
        else if second > MAX_QUANT || first > MAX_QUANT then Err(InvalidBound)
        else if first > second then Err(InvalidBound)
        else Ok((Quantifier(first, Some(second)), end + 1))
  }

  predicate IsBounded(quant: Quantifier) {
    match quant.max
    case None => quant.min <= 1
    case Some(max) => quant.min <= max <= MAX_QUANT
  }

  function QuantifierAt(pattern: Text, at: nat): (parsed: Result<(Quantifier, nat), ErrorCode>)
    requires at < |pattern|
    ensures parsed.Ok? ==> at <= parsed.value.1 <= |pattern| && IsBounded(parsed.value.0)
  {
    if pattern[at] == QUESTION then Ok((Quantifier(0, Some(1)), at + 1))
    else if pattern[at] == STAR then Ok((Quantifier(0, None), at + 1))
    else if pattern[at] == PLUS then Ok((Quantifier(1, None), at + 1))
    else if pattern[at] != BRACE_OPEN then Ok((ONCE, at))
    else
      match NumberAt(pattern, at + 1)
      case None => Err(MalformedPattern)
      case Some((first, end)) => BoundsFrom(pattern, first, end)
  }

  method ParseQuantifier(pattern: Text, at: nat) returns (parsed: Result<(Quantifier, nat), ErrorCode>)
    requires at < |pattern|
    ensures parsed == QuantifierAt(pattern, at)
  {
    var ch := pattern[at];
    if ch == QUESTION { return Ok((Quantifier(0, Some(1)), at + 1)); }
    if ch == STAR { return Ok((Quantifier(0, None), at + 1)); }
    if ch == PLUS { return Ok((Quantifier(1, None), at + 1)); }
    if ch != BRACE_OPEN { return Ok((ONCE, at)); }
    if at + 1 >= |pattern| {
      return Err(MalformedPattern);
    }
    var first := ReadNumber(pattern, at + 1);
    if first.None? {
      return Err(MalformedPattern);
    }
    var (min, i) := first.value;
    if i < |pattern| && pattern[i] == BRACE_CLOSE {
      if min > MAX_QUANT {
        return Err(InvalidBound);
      }
      return Ok((Quantifier(min, Some(min)), i + 1));
    }
    if i >= |pattern| || pattern[i] != COMMA {
      return Err(MalformedPattern);
    }
    var second := ReadNumber(pattern, i + 1);
    if second.None? {
      return Err(MalformedPattern);
    }
    var (max, j) := second.value;
    if j >= |pattern| || pattern[j] != BRACE_CLOSE {
      return Err(MalformedPattern);
    }
    if max > MAX_QUANT || min > MAX_QUANT {
      return Err(InvalidBound);
    }
    if min > max {
      return Err(InvalidBound);
    }
    return Ok((Quantifier(min, Some(max)), j + 1));
  }

  // ---- Classes --------------------------------------------------------------------------------

  /** One code point of a class, escaped or bare. */
  function ClassCode(pattern: Text, i: nat): (parsed: Result<(nat, nat), ErrorCode>)
    requires i < |pattern|
    ensures parsed.Ok? ==> i < parsed.value.1 <= |pattern|
  {
    if pattern[i] == ESCAPE then ParseClassEscapedChar(pattern, i)
    else Ok((CodePointAt(pattern, i), i + CodePointWidth(pattern, i)))
  }

  datatype Item = One(code: nat) | Between(range: CodeRange)

  /** One member of a class: a code point or a range. */
  function ClassItem(pattern: Text, i: nat): (parsed: Result<(Item, nat), ErrorCode>)
    requires i < |pattern|
    ensures parsed.Ok? ==> i < parsed.value.1 <= |pattern|
  {
    match ClassCode(pattern, i)
    case Err(error) => Err(error)
    case Ok((low, next)) =>
      if next + 1 < |pattern| && pattern[next] == HYPHEN && pattern[next + 1] != BRACKET_CLOSE then
        match ClassCode(pattern, next + 1)
        case Err(error) => Err(error)
        case Ok((high, behind)) => if low > high then Err(MalformedPattern)
            else Ok((Between(CodeRange(low, high)), behind))
      else if next < |pattern| && pattern[next] == HYPHEN then Err(MalformedPattern)
      else Ok((One(low), next))
  }

  function WithItem(node: Node, item: Item): (more: Node)
    requires node.Class?
    ensures more.Class? && more.quant == node.quant
  {
    match item
    case One(code) => node.(singles := node.singles + [code])
    case Between(range) => node.(ranges := node.ranges + [range])
  }

  const EMPTY_CLASS: Node := Class([], [], ONCE)

  /** The rest of a class from `i` on, onto the members read so far. */
  function ClassFrom(pattern: Text, i: nat, node: Node): (parsed: Result<(Node, nat), ErrorCode>)
    requires i <= |pattern| && node.Class?
    ensures parsed.Ok? ==>
              parsed.value.0.Class? && parsed.value.0.quant == node.quant && i < parsed.value.1 <= |pattern|
    decreases |pattern| - i
  {
    if i == |pattern| then Err(MalformedPattern)
    else if pattern[i] == BRACKET_CLOSE then
      if node.singles == [] && node.ranges == [] then Err(MalformedPattern) else Ok((node, i + 1))
    else
      match ClassItem(pattern, i)
      case Err(error) => Err(error)
      case Ok((item, next)) => ClassFrom(pattern, next, WithItem(node, item))
  }

  method ParseCharClass(pattern: Text, at: nat) returns (parsed: Result<(Node, nat), ErrorCode>)
    requires at < |pattern|
    ensures parsed == ClassFrom(pattern, at + 1, EMPTY_CLASS)
  {
    var i := at + 1;
    var singles: seq<nat>, ranges: seq<CodeRange> := [], [];
    var count: nat := 0;
    while i < |pattern|
      invariant at < i <= |pattern|
      invariant count == |singles| + |ranges|
      invariant ClassFrom(pattern, i, Class(singles, ranges, ONCE)) == ClassFrom(pattern, at + 1, EMPTY_CLASS)
      decreases |pattern| - i
    {
      if pattern[i] == BRACKET_CLOSE {
        if count == 0 {
          return Err(MalformedPattern);
        }
        return Ok((Class(singles, ranges, ONCE), i + 1));
      }
      var low := ClassCode(pattern, i);
      if low.Err? {
        return Err(low.error);
      }
      var lowCode, next := low.value.0, low.value.1;
      count := count + 1;
      if next < |pattern| && pattern[next] == HYPHEN && next + 1 < |pattern| && pattern[next + 1] != BRACKET_CLOSE {
        var high := ClassCode(pattern, next + 1);
        if high.Err? {
          return Err(high.error);
        }
        if lowCode > high.value.0 {
          return Err(MalformedPattern);
        }
        ranges := ranges + [CodeRange(lowCode, high.value.0)];
        i := high.value.1;
        continue;
      }
      if next < |pattern| && pattern[next] == HYPHEN {
        return Err(MalformedPattern);
      }
      singles := singles + [lowCode];
      i := next;
    }
    return Err(MalformedPattern);
  }

  // ---- Patterns -------------------------------------------------------------------------------

  /** One atom, before its quantifier. */
  function AtomAt(query: Text, i: nat): (parsed: Result<(Node, nat), ErrorCode>)
    requires i < |query|
    ensures parsed.Ok? ==> i < parsed.value.1 <= |query| && parsed.value.0.quant == ONCE
  {
    var ch := query[i];
    if ch == PAREN_OPEN || ch == PAREN_CLOSE || ch == BAR then Err(UnsupportedSyntax)
    else if ch == STAR || ch == PLUS || ch == QUESTION then Err(UnsupportedSyntax)
    else if ch == BRACE_OPEN || ch == BRACE_CLOSE then Err(MalformedPattern)
    else if ch == CARET then Ok((StartAnchor(ONCE), i + 1))
    else if ch == DOLLAR then Ok((EndAnchor(ONCE), i + 1))
    else if ch == PERIOD then Ok((Dot(ONCE), i + 1))
    else if ch == BRACKET_OPEN then ClassFrom(query, i + 1, EMPTY_CLASS)
    else if ch == ESCAPE then
      match ParseEscapedChar(query, i)
      case Err(error) => Err(error)
      case Ok((value, next)) => Ok((Literal(value, ONCE), next))
    else
      Ok((Literal(CodePoint(query, i), ONCE), i + CodePointWidth(query, i)))
  }

  predicate StartsQuantifier(u: Unit) {
    u == QUESTION || u == STAR || u == PLUS || u == BRACE_OPEN
  }

  /** One node: an atom and the quantifier behind it, if there is one. Anchors take none. */
  function NodeAt(query: Text, i: nat): (parsed: Result<(Node, nat), ErrorCode>)
    requires i < |query|
    ensures parsed.Ok? ==> i < parsed.value.1 <= |query| && WellFormedNode(parsed.value.0)
  {
    match AtomAt(query, i)
    case Err(error) => Err(error)
    case Ok((atom, next)) =>
      if next < |query| && StartsQuantifier(query[next]) then
        match QuantifierAt(query, next)
        case Err(error) => Err(error)
        case Ok((quant, behind)) => if !atom.Consuming() then Err(UnsupportedSyntax)
            else Ok((atom.(quant := quant), behind))
      else Ok((atom, next))
  }

  /** The nodes from `i` on, behind those read so far. */
  function NodesFrom(query: Text, i: nat, nodes: seq<Node>): (parsed: Result<seq<Node>, ErrorCode>)
    requires i <= |query|
    decreases |query| - i
  {
    if i == |query| then Ok(nodes)
    else
      match NodeAt(query, i)
      case Err(error) => Err(error)
      case Ok((node, next)) => NodesFrom(query, next, nodes + [node])
  }

  function Parse(query: Text): Result<seq<Node>, ErrorCode> {
    if |query| > MAX_PATTERN_UNITS then Err(PatternTooLong)
    else
      match NodesFrom(query, 0, [])
      case Err(error) => Err(error)
      case Ok(nodes) => if nodes == [] then Err(MalformedPattern) else Ok(nodes)
  }

  /** What the engine asks of its nodes, every parsed pattern has. */
  lemma {:induction false} ParsedNodesAreWellFormed(query: Text, i: nat, nodes: seq<Node>)
    requires i <= |query| && (forall k :: 0 <= k < |nodes| ==> WellFormedNode(nodes[k]))
             && NodesFrom(query, i, nodes).Ok?
    ensures forall k :: 0 <= k < |NodesFrom(query, i, nodes).value| ==>
              WellFormedNode(NodesFrom(query, i, nodes).value[k])
    decreases |query| - i
  {
    if i < |query| {
      hide WellFormedNode;
      var parsed := NodeAt(query, i);
      ParsedNodesAreWellFormed(query, parsed.value.1, nodes + [parsed.value.0]);
    }
  }

  lemma ParsedIsWellFormed(query: Text)
    requires Parse(query).Ok?
    ensures WellFormed(Parse(query).value)
  {
    ParsedNodesAreWellFormed(query, 0, []);
  }

  method ParseRegexLite(query: Text) returns (parsed: Result<seq<Node>, ErrorCode>)
    ensures parsed == Parse(query)
    ensures parsed.Ok? ==> WellFormed(parsed.value)
  {
    if |query| > MAX_PATTERN_UNITS {
      return Err(PatternTooLong);
    }
    var nodes: seq<Node> := [];
    var i := 0;
    while i < |query|
      invariant 0 <= i <= |query|
      invariant NodesFrom(query, i, nodes) == NodesFrom(query, 0, [])
      decreases |query| - i
    {
      var atom := ParseAtom(query, i);
      if atom.Err? {
        return Err(atom.error);
      }
      var node, next := atom.value.0, atom.value.1;
      if next < |query| && StartsQuantifier(query[next]) {
        var quantifier := ParseQuantifier(query, next);
        if quantifier.Err? {
          return Err(quantifier.error);
        }
        if !node.Consuming() {
          return Err(UnsupportedSyntax);
        }
        node, next := node.(quant := quantifier.value.0), quantifier.value.1;
      }
      nodes, i := nodes + [node], next;
    }
    if |nodes| == 0 {
      return Err(MalformedPattern);
    }
    ParsedIsWellFormed(query);
    return Ok(nodes);
  }

  method ParseAtom(query: Text, i: nat) returns (parsed: Result<(Node, nat), ErrorCode>)
    requires i < |query|
    ensures parsed == AtomAt(query, i)
  {
    if query[i] == BRACKET_OPEN {
      parsed := ParseCharClass(query, i);
    } else {
      parsed := AtomAt(query, i);
    }
  }
}
