/** The settings grammar: items `key = value` and blocks `key { ... }`, as
    recursive descent over the text. Every token skips the default
    whitespace (space, tab, CR, LF) before it, except the line end, which
    skips only space, tab and CR before an LF or the end of the text, and
    the rest of a line, which skips nothing. `|` takes the first
    alternative that matches, `^` the longest (the first on a tie). */
module Grammar {
  import opened Wrappers
  import opened PyObj

  /** The raw tree: an item holds a scalar, a block holds either items only
      or blocks only. */
  datatype Node = Item(key: string, value: Obj) | Block(key: string, body: seq<Node>)

  /** A parser's result: the value and the position after it. */
  datatype Parsed<+T> = Fail | Ok(value: T, next: nat)

  predicate IsWhite(c: char) { c == ' ' || c == '\t' || c == '\r' || c == '\n' }
  predicate IsBlank(c: char) { c == ' ' || c == '\t' || c == '\r' }
  predicate IsDigit(c: char) { '0' <= c <= '9' }
  predicate IsKeyChar(c: char) { 'A' <= c <= 'Z' || 'a' <= c <= 'z' || IsDigit(c) || c == '_' }
  predicate NotNewline(c: char) { c != '\n' }

  /** The end of the longest run of characters satisfying p from i on. */
  function Span(s: string, i: nat, p: char -> bool): (j: nat)
    requires i <= |s|
    ensures i <= j <= |s|
    ensures j < |s| ==> !p(s[j])
    decreases |s| - i
  {
    if i == |s| || !p(s[i]) then i else Span(s, i + 1, p)
  }

  /** Every character Span passes over satisfies p. */
  lemma {:induction false} SpanAll(s: string, i: nat, p: char -> bool)
    requires i <= |s|
    ensures forall k :: i <= k < Span(s, i, p) ==> p(s[k])
    decreases |s| - i
  {
    if i < |s| && p(s[i]) {
      SpanAll(s, i + 1, p);
    }
  }

  function SkipWs(s: string, i: nat): (j: nat)
    requires i <= |s|
    ensures i <= j <= |s|
  {
    Span(s, i, IsWhite)
  }

  /** Literal(lit) after the default whitespace. */
  function Literal(s: string, i: nat, lit: string): (r: Parsed<()>)
    requires i <= |s|
    ensures r.Ok? ==> i < r.next <= |s| || (lit == [] && i <= r.next <= |s|)
  {
    var j := SkipWs(s, i);
    if j + |lit| <= |s| && s[j..j + |lit|] == lit then Ok((), j + |lit|) else Fail
  }

  /** LineEnd: blanks, then an LF (consumed) or the end of the text. */
  function LineEnd(s: string, i: nat): (r: Parsed<()>)
    requires i <= |s|
    ensures r.Ok? ==> i <= r.next <= |s|
  {
    var j := Span(s, i, IsBlank);
    if j == |s| then Ok((), j)
    else if s[j] == '\n' then Ok((), j + 1)
    else Fail
  }

  /** rest_of_line: everything up to, not including, the next LF. */
  function RestOfLine(s: string, i: nat): (j: nat)
    requires i <= |s|
    ensures i <= j <= |s| && (j < |s| ==> s[j] == '\n')
    ensures forall k :: i <= k < j ==> s[k] != '\n'
  {
    SpanAll(s, i, NotNewline);
    Span(s, i, NotNewline)
  }

  /** ItemKey = Word(alphanums + "_"): the longest non-empty run. */
  function Key(s: string, i: nat): (r: Parsed<string>)
    requires i <= |s|
    ensures r.Ok? ==> i < r.next <= |s| && r.value != []
    ensures r.Ok? ==> forall k :: 0 <= k < |r.value| ==> IsKeyChar(r.value[k])
  {
    var j := SkipWs(s, i);
    var k := Span(s, j, IsKeyChar);
    SpanAll(s, j, IsKeyChar);
    if k == j then Fail
    else
      assert forall m :: 0 <= m < k - j ==> s[j..k][m] == s[j + m];
      Ok(s[j..k], k)
  }

  /** The end of an optional sign at j. */
  function SignEnd(s: string, j: nat): (k: nat)
    requires j <= |s|
    ensures j <= k <= |s|
  {
    if j < |s| && (s[j] == '+' || s[j] == '-') then j + 1 else j
  }

  /** The end of a match of the real-number pattern [+-]?(\d+\.\d*|\.\d+)
      at j, if any. */
  function RealEnd(s: string, j: nat): (r: Option<nat>)
    requires j <= |s|
    ensures r.Some? ==> j < r.value <= |s|
  {
    var a := SignEnd(s, j);
    var d := Span(s, a, IsDigit);
    if d > a && d < |s| && s[d] == '.' then Some(Span(s, d + 1, IsDigit))
    else if a < |s| && s[a] == '.' && Span(s, a + 1, IsDigit) > a + 1 then Some(Span(s, a + 1, IsDigit))
    else None
  }

  /** The end of a match of the integer pattern [+-]?\d+ at j, if any. */
  function IntegerEnd(s: string, j: nat): (r: Option<nat>)
    requires j <= |s|
    ensures r.Some? ==> j < r.value <= |s|
  {
    var a := SignEnd(s, j);
    var d := Span(s, a, IsDigit);
    if d > a then Some(d) else None
  }

  /** The decimal value of a run of digits. */
  function DigitsValue(ds: string): nat
    requires forall k :: 0 <= k < |ds| ==> IsDigit(ds[k])
  {
    if ds == [] then 0
    else
      assert IsDigit(ds[|ds| - 1]);
      DigitsValue(ds[..|ds| - 1]) * 10 + (ds[|ds| - 1] as int - '0' as int)
  }

  /** int() of a signed integer lexeme. */
  function IntegerValue(lexeme: string): (r: int)
    requires |lexeme| > 0
    requires forall k :: 1 <= k < |lexeme| ==> IsDigit(lexeme[k])
    requires IsDigit(lexeme[0]) || lexeme[0] == '+' || lexeme[0] == '-'
    ensures lexeme[0] == '-' ==> r <= 0
    ensures lexeme[0] != '-' ==> r >= 0
  {
    if lexeme[0] == '-' then -(DigitsValue(lexeme[1..]) as int)
    else if lexeme[0] == '+' then DigitsValue(lexeme[1..])
    else DigitsValue(lexeme)
  }

  /** Number = Float ^ Integer: Float is the real pattern followed by the
      rest of its line, which is dropped; the longer match wins and Float
      wins a tie. */
  function Number(s: string, i: nat): (r: Parsed<Obj>)
    requires i <= |s|
    ensures r.Ok? ==> i < r.next <= |s| && (r.value.Real? || r.value.Int?)
  {
    var j := SkipWs(s, i);
    var f := RealEnd(s, j);
    var n := IntegerEnd(s, j);
    if f.Some? && (n.None? || RestOfLine(s, f.value) >= n.value) then
      Ok(Real(s[j..f.value]), RestOfLine(s, f.value))
    else if n.Some? then
      var a := SignEnd(s, j);
      SpanAll(s, a, IsDigit);
      assert forall k :: 1 <= k < n.value - j ==> s[j..n.value][k] == s[j + k];
      assert a == j ==> IsDigit(s[j]);
      Ok(Int(IntegerValue(s[j..n.value])), n.value)
    else Fail
  }

  /** String = '"' + rest_of_line: no escapes and no closing quote. */
  function QuotedString(s: string, i: nat): (r: Parsed<Obj>)
    requires i <= |s|
    ensures r.Ok? ==> i < r.next <= |s| && r.value.Str?
  {
    match Literal(s, i, "\"")
    case Fail => Fail
    case Ok(_, q) =>
      var e := RestOfLine(s, q);
      Ok(Str(s[q..e]), e)
  }

  /** ItemValue = TRUE | FALSE | Number | String, with TRUE and FALSE
      resolved to booleans. */
  function ParseValue(s: string, i: nat): (r: Parsed<Obj>)
    requires i <= |s|
    ensures r.Ok? ==> i < r.next <= |s| && r.value.IsScalar()
  {
    match Literal(s, i, "TRUE")
    case Ok(_, k) => Ok(Bool(true), k)
    case Fail =>
      match Literal(s, i, "FALSE")
      case Ok(_, k) => Ok(Bool(false), k)
      case Fail =>
        match Number(s, i)
        case Ok(v, k) => Ok(v, k)
        case Fail => QuotedString(s, i)
  }

  /** Item = key "=" value LineEnd. */
  function ParseItem(s: string, i: nat): (r: Parsed<Node>)
    requires i <= |s|
    ensures r.Ok? ==> i < r.next <= |s| && r.value.Item? && r.value.value.IsScalar()
  {
    match Key(s, i)
    case Fail => Fail
    case Ok(k, a) =>
      match Literal(s, a, "=")
      case Fail => Fail
      case Ok(_, b) =>
        match ParseValue(s, b)
        case Fail => Fail
        case Ok(v, c) =>
          match LineEnd(s, c)
          case Fail => Fail
          case Ok(_, e) => Ok(Item(k, v), e)
  }

  /** ZeroOrMore(Item): when nothing matches, the position after the
      whitespace; otherwise the end of the last item. */
  function ParseItems(s: string, i: nat): (r: (seq<Node>, nat))
    requires i <= |s|
    ensures i <= r.1 <= |s|
    ensures forall k :: 0 <= k < |r.0| ==> r.0[k].Item? && r.0[k].value.IsScalar()
  {
    match ParseItem(s, i)
    case Fail => ([], SkipWs(s, i))
    case Ok(n, j) => var (ns, e) := MoreItems(s, j); ([n] + ns, e)
  }

  function MoreItems(s: string, i: nat): (r: (seq<Node>, nat))
    requires i <= |s|
    ensures i <= r.1 <= |s|
    ensures forall k :: 0 <= k < |r.0| ==> r.0[k].Item? && r.0[k].value.IsScalar()
    decreases |s| - i
  {
    match ParseItem(s, i)
    case Fail => ([], i)
    case Ok(n, j) => var (ns, e) := MoreItems(s, j); ([n] + ns, e)
  }

  /** Items only, or blocks only, all the way down. */
  predicate WellShaped(n: Node)
  {
    match n
    case Item(_, v) => v.IsScalar()
    case Block(_, body) =>
      ((forall k :: 0 <= k < |body| ==> body[k].Item?) || (forall k :: 0 <= k < |body| ==> body[k].Block?))
      && forall k :: 0 <= k < |body| ==> WellShaped(body[k])
  }

  /** Block = key "{" LineEnd (items ^ blocks) "}" LineEnd. */
  function ParseBlock(s: string, i: nat): (r: Parsed<Node>)
    requires i <= |s|
    ensures r.Ok? ==> i < r.next <= |s| && r.value.Block? && WellShaped(r.value)
    decreases |s| - i, 0
  {
    match Key(s, i)
    case Fail => Fail
    case Ok(k, a) =>
      match Literal(s, a, "{")
      case Fail => Fail
      case Ok(_, b) =>
        match LineEnd(s, b)
        case Fail => Fail
        case Ok(_, c) => BlockBody(s, k, c)
  }

  /** The rest of a block after its opening line: the longer of a run of
      items and a run of blocks (the items on a tie), then "}" LineEnd. */
  function BlockBody(s: string, k: string, c: nat): (r: Parsed<Node>)
    requires c <= |s|
    ensures r.Ok? ==> c < r.next <= |s| && r.value.Block? && r.value.key == k && WellShaped(r.value)
    decreases |s| - c, 2
  {
    var (items, ie) := ParseItems(s, c);
    var (blocks, be) := ParseBlocks(s, c);
    var (body, d) := if ie >= be then (items, ie) else (blocks, be);
    match Literal(s, d, "}")
    case Fail => Fail
    case Ok(_, e) =>
      match LineEnd(s, e)
      case Fail => Fail
      case Ok(_, f) => Ok(Block(k, body), f)
  }

  /** ZeroOrMore(NestedBlock). */
  function ParseBlocks(s: string, i: nat): (r: (seq<Node>, nat))
    requires i <= |s|
    ensures i <= r.1 <= |s|
    ensures forall k :: 0 <= k < |r.0| ==> r.0[k].Block? && WellShaped(r.0[k])
    decreases |s| - i, 1
  {
    match ParseBlock(s, i)
    case Fail => ([], SkipWs(s, i))
    case Ok(n, j) => var (ns, e) := MoreBlocks(s, j); ([n] + ns, e)
  }

  function MoreBlocks(s: string, i: nat): (r: (seq<Node>, nat))
    requires i <= |s|
    ensures i <= r.1 <= |s|
    ensures forall k :: 0 <= k < |r.0| ==> r.0[k].Block? && WellShaped(r.0[k])
    decreases |s| - i, 1
  {
    match ParseBlock(s, i)
    case Fail => ([], i)
    case Ok(n, j) => var (ns, e) := MoreBlocks(s, j); ([n] + ns, e)
  }

  /** Item | Block: the first that matches. */
  function ParseEntry(s: string, i: nat): (r: Parsed<Node>)
    requires i <= |s|
    ensures r.Ok? ==> i < r.next <= |s| && WellShaped(r.value)
  {
    match ParseItem(s, i)
    case Ok(n, j) => Ok(n, j)
    case Fail => ParseBlock(s, i)
  }

  /** (Item | Block)[...]: zero or more entries. */
  function ParseEntries(s: string, i: nat): (r: (seq<Node>, nat))
    requires i <= |s|
    ensures i <= r.1 <= |s|
    ensures forall k :: 0 <= k < |r.0| ==> WellShaped(r.0[k])
  {
    match ParseEntry(s, i)
    case Fail => ([], SkipWs(s, i))
    case Ok(n, j) => var (ns, e) := MoreEntries(s, j); ([n] + ns, e)
  }

  function MoreEntries(s: string, i: nat): (r: (seq<Node>, nat))
    requires i <= |s|
    ensures i <= r.1 <= |s|
    ensures forall k :: 0 <= k < |r.0| ==> WellShaped(r.0[k])
    decreases |s| - i
  {
    match ParseEntry(s, i)
    case Fail => ([], i)
    case Ok(n, j) => var (ns, e) := MoreEntries(s, j); ([n] + ns, e)
  }

  /** parse_string(..., parse_all=True): the entries must be followed by
      nothing but whitespace. */
  function ParseDocument(s: string): (r: Option<seq<Node>>)
    ensures r.Some? ==> forall k :: 0 <= k < |r.value| ==> WellShaped(r.value[k])
  {
    var (nodes, e) := ParseEntries(s, 0);
    if SkipWs(s, e) == |s| then Some(nodes) else None
  }

  /** One trailing NUL is removed before parsing. */
  function StripNul(text: string): (t: string)
    ensures |text| > 0 && text[|text| - 1] == '\0' ==> text == t + ['\0']
    ensures !(|text| > 0 && text[|text| - 1] == '\0') ==> t == text
  {
    if |text| > 0 && text[|text| - 1] == '\0' then text[..|text| - 1] else text
  }

  /** as_list(): an item becomes [key, value], a block [key, [children]]. */
  function AsList(n: Node): Obj
  {
    match n
    case Item(k, v) => List([Str(k), v])
    case Block(k, body) => List([Str(k), List(AsLists(body))])
  }

  function AsLists(ns: seq<Node>): (r: seq<Obj>)
    ensures |r| == |ns|
    decreases ns
  {
    if ns == [] then [] else [AsList(ns[0])] + AsLists(ns[1..])
  }
}
