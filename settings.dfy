/** `parse`: the whole settings pipeline. One trailing NUL is dropped, tabs
    are expanded the way the parser library does before it reads anything,
    the grammar reads the text as a whole, the tree is flattened to nested
    lists and `to_dict` folds those into dicts. */
module Settings {
  import opened Wrappers
  import opened PyObj
  import opened Grammar
  import opened Normaliser
  import opened Render

  /** The tab width of str.expandtabs() with no argument. */
  const TAB_SIZE: nat := 8

  function Spaces(n: nat): (r: string)
    ensures |r| == n && forall k :: 0 <= k < n ==> r[k] == ' '
  {
    seq(n, _ => ' ')
  }

  predicate NoTabs(s: string)
  {
    forall k :: 0 <= k < |s| ==> s[k] != '\t'
  }

  /** str.expandtabs() from column col: a tab becomes the spaces up to the
      next multiple of TAB_SIZE, a line feed or carriage return sets the
      column back to 0, anything else moves it on by one. */
  function ExpandTabsFrom(s: string, col: nat): (r: string)
    ensures |r| >= |s|
    decreases |s|
  {
    if s == [] then []
    else if s[0] == '\t' then
      Spaces(Pad(col)) + ExpandTabsFrom(s[1..], col + Pad(col))
    else
      var next := if s[0] == '\n' || s[0] == '\r' then 0 else col + 1;
      [s[0]] + ExpandTabsFrom(s[1..], next)
  }

  /** No tab survives expansion. */
  lemma {:induction false} ExpandedNoTabs(s: string, col: nat)
    ensures NoTabs(ExpandTabsFrom(s, col))
    decreases |s|
  {
    if s != [] {
      var next := if s[0] == '\t' then col + Pad(col) else if s[0] == '\n' || s[0] == '\r' then 0 else col + 1;
      ExpandedNoTabs(s[1..], next);
      var h := if s[0] == '\t' then Spaces(Pad(col)) else [s[0]];
      var t := ExpandTabsFrom(s[1..], next);
      assert ExpandTabsFrom(s, col) == h + t;
      forall k | 0 <= k < |h + t| ensures (h + t)[k] != '\t' {
        if k >= |h| { assert (h + t)[k] == t[k - |h|]; }
      }
    }
  }

  /** Text without tabs is left as it is. */
  lemma {:induction false} ExpandNoTabs(s: string, col: nat)
    requires NoTabs(s)
    ensures ExpandTabsFrom(s, col) == s
    decreases |s|
  {
    if s != [] {
      var next := if s[0] == '\n' || s[0] == '\r' then 0 else col + 1;
      assert NoTabs(s[1..]) by {
        forall k | 0 <= k < |s[1..]| ensures s[1..][k] != '\t' { assert s[1..][k] == s[k + 1]; }
      }
      ExpandNoTabs(s[1..], next);
      assert s == [s[0]] + s[1..];
    }
  }

  function ExpandTabs(s: string): (r: string)
    ensures NoTabs(r) && (NoTabs(s) ==> r == s)
  {
    ExpandedNoTabs(s, 0);
    if NoTabs(s) then ExpandNoTabs(s, 0); ExpandTabsFrom(s, 0) else ExpandTabsFrom(s, 0)
  }

  /** The spaces a tab at column col turns into: up to the next multiple
      of TAB_SIZE. */
  function Pad(col: nat): nat
  {
    TAB_SIZE - col % TAB_SIZE
  }

  /** A tab takes one to TAB_SIZE columns and ends on a tab stop. */
  lemma PadToStop(col: nat)
    ensures 1 <= Pad(col) <= TAB_SIZE && (col + Pad(col)) % TAB_SIZE == 0
  {
  }

  /** A tab after text p on the same line pads to the next tab stop,
      counted from the start of the line. */
  lemma {:induction false} TabStop(p: string, q: string, col: nat)
    requires Plain(p)
    ensures ExpandTabsFrom(p + "\t" + q, col)
      == p + Spaces(Pad(col + |p|)) + ExpandTabsFrom(q, col + |p| + Pad(col + |p|))
    decreases |p|
  {
    if p == [] {
      TabStopHere(p, q, col);
    } else {
      TabStop(p[1..], q, col + 1);
      TabStopStep(p, q, col);
    }
  }

  lemma TabStopHere(p: string, q: string, col: nat)
    requires p == []
    ensures ExpandTabsFrom(p + "\t" + q, col)
      == p + Spaces(Pad(col + |p|)) + ExpandTabsFrom(q, col + |p| + Pad(col + |p|))
  {
    ExpandTab(q, col);
    assert p + "\t" + q == "\t" + q;
    var e := ExpandTabsFrom(q, col + Pad(col));
    assert p + Spaces(Pad(col)) + e == Spaces(Pad(col)) + e;
  }

  lemma TabStopStep(p: string, q: string, col: nat)
    requires p != [] && p[0] != '\t' && p[0] != '\n' && p[0] != '\r'
    requires var c := col + 1 + |p[1..]|;
      ExpandTabsFrom(p[1..] + "\t" + q, col + 1) == p[1..] + Spaces(Pad(c)) + ExpandTabsFrom(q, c + Pad(c))
    ensures ExpandTabsFrom(p + "\t" + q, col)
      == p + Spaces(Pad(col + |p|)) + ExpandTabsFrom(q, col + |p| + Pad(col + |p|))
  {
    var c := col + |p|;
    assert col + 1 + |p[1..]| == c;
    var e := ExpandTabsFrom(q, c + Pad(c));
    var t := p[1..] + "\t" + q;
    ExpandOther(p[0], t, col, p[1..] + Spaces(Pad(c)) + e);
    assert p + "\t" + q == [p[0]] + t;
    Regroup(p, Spaces(Pad(c)), e);
  }

  lemma ExpandTab(q: string, col: nat)
    ensures ExpandTabsFrom("\t" + q, col) == Spaces(Pad(col)) + ExpandTabsFrom(q, col + Pad(col))
  {
    assert ("\t" + q)[1..] == q;
  }

  lemma ExpandOther(x: char, t: string, col: nat, e: string)
    requires x != '\t' && x != '\n' && x != '\r'
    requires ExpandTabsFrom(t, col + 1) == e
    ensures ExpandTabsFrom([x] + t, col) == [x] + e
  {
    assert ([x] + t)[1..] == t;
  }

  lemma Regroup(p: string, a: string, b: string)
    requires p != []
    ensures [p[0]] + (p[1..] + a + b) == p + a + b
  {
    assert p == [p[0]] + p[1..];
  }

  datatype SettingsError =
    | SyntaxError                    // pyparsing.ParseException
    | Unhandled(error: NormError)    // an exception raised by to_dict

  /** parse_string(text, parse_all=True).as_list(), or None when the
      grammar rejects the text. */
  function RawTree(text: string): (r: Option<Obj>)
    ensures r.Some? ==> r.value.List?
  {
    match ParseDocument(ExpandTabs(text))
    case None => None
    case Some(nodes) => Some(List(AsLists(nodes)))
  }

  /** A failure of to_dict as a failure of parse. */
  function Lift(r: Result<Value, NormError>): Result<Value, SettingsError>
  {
    match r
    case Success(v) => Success(v)
    case Failure(e) => Failure(Unhandled(e))
  }

  /** parse(): strip one trailing NUL, read the text, normalise the tree.
      The tree is a list, so a successful parse is always a dict, and no
      level of it repeats a key. */
  function Parse(text: string): (r: Result<Value, SettingsError>)
    ensures r.Success? ==> r.value.Dict? && ProperValue(r.value)
    ensures r.Failure? && r.error.SyntaxError? <==> ParseDocument(ExpandTabs(StripNul(text))).None?
  {
    match RawTree(StripNul(text))
    case None => Failure(SyntaxError)
    case Some(tree) => Lift(ToDictSpec(tree))
  }

  /** Whatever text expands to a rendered document parses as the
      normalised tree of that document. */
  lemma ParseExpanded(text: string, doc: seq<Node>)
    requires forall c :: 0 <= c < |doc| ==> Renderable(doc[c])
    requires ExpandTabs(StripNul(text)) == RenderNodes(doc)
    ensures Parse(text) == Lift(ToDictSpec(List(AsLists(doc))))
  {
    DocumentRoundTrip(doc);
  }

  /** A rendered document is empty or ends with a line break. */
  lemma {:induction false} RenderedEnd(ns: seq<Node>)
    requires forall c :: 0 <= c < |ns| ==> Renderable(ns[c])
    ensures var r := RenderNodes(ns); r == [] || r[|r| - 1] == '\n'
    decreases ns
  {
    if ns != [] {
      RenderedEnd(ns[1..]);
      var h, t := RenderNode(ns[0]), RenderNodes(ns[1..]);
      assert RenderNodes(ns) == h + t;
      if t == [] {
        assert h + t == h;
        match ns[0]
        case Item(k, v) =>
          assert h == (k + " = " + RenderValue(v)) + "\n";
        case Block(k, body) =>
          assert h == (k + " {\n" + RenderNodes(body)) + "}\n";
      } else {
        assert (h + t)[|h + t| - 1] == t[|t| - 1];
      }
    }
  }

  /** The text of a rendered document, with or without the trailing NUL the
      container leaves, parses to the normalised tree of the document as
      long as no string in it holds a tab. */
  lemma ParseRendered(doc: seq<Node>)
    requires forall c :: 0 <= c < |doc| ==> Renderable(doc[c])
    requires NoTabs(RenderNodes(doc))
    ensures Parse(RenderNodes(doc)) == Lift(ToDictSpec(List(AsLists(doc))))
    ensures Parse(RenderNodes(doc) + "\0") == Lift(ToDictSpec(List(AsLists(doc))))
  {
    var r := RenderNodes(doc);
    RenderedEnd(doc);
    assert StripNul(r) == r;
    ParseExpanded(r, doc);
    NulStripped(r);
    ParseExpanded(r + "\0", doc);
  }

  /** Exactly one NUL at the end goes. */
  lemma NulStripped(text: string)
    ensures StripNul(text + "\0") == text
  {
    var t := StripNul(text + "\0");
    assert text + "\0" == t + ['\0'];
    assert text == (text + "\0")[..|text|] == (t + ['\0'])[..|t|] == t;
  }

  /** A NUL that the text did not already end with is ignored. */
  lemma TrailingNulIgnored(text: string)
    requires text == [] || text[|text| - 1] != '\0'
    ensures Parse(text + "\0") == Parse(text)
  {
    NulStripped(text);
    assert StripNul(text) == text;
  }

  /** Text after the last closing line makes the parse fail: the whole
      text must be read. */
  lemma TrailingBraceSyntaxError(doc: seq<Node>)
    requires forall c :: 0 <= c < |doc| ==> Renderable(doc[c])
    requires NoTabs(RenderNodes(doc))
    ensures Parse(RenderNodes(doc) + "}") == Failure(SyntaxError)
  {
    var r := RenderNodes(doc);
    var s := r + "}";
    assert NoTabs(s) by {
      forall k | 0 <= k < |s| ensures s[k] != '\t' {
        if k < |r| { assert s[k] == r[k]; }
      }
    }
    assert s[|s| - 1] == '}';
    assert StripNul(s) == s;
    TrailingBraceRejected(doc);
  }

  /** The value of the last item with key k, if any. */
  predicate LastItem(doc: seq<Node>, k: string, i: nat)
  {
    i < |doc| && doc[i].key == k && forall j :: i < j < |doc| ==> doc[j].key != k
  }

  predicate ItemsOnly(doc: seq<Node>)
  {
    forall c :: 0 <= c < |doc| ==> doc[c].Item? && Renderable(doc[c])
  }

  lemma AsListsTail(doc: seq<Node>)
    requires doc != []
    ensures AsLists(doc)[0] == AsList(doc[0]) && AsLists(doc)[1..] == AsLists(doc[1..])
  {
  }

  lemma AsListsFlat(doc: seq<Node>)
    requires ItemsOnly(doc)
    ensures FlatItems(AsLists(doc))
    ensures forall c :: 0 <= c < |doc| ==> AsLists(doc)[c] == List([Str(doc[c].key), doc[c].value])
  {
    AsListsPairs(doc);
    PairsFlat(doc);
  }

  lemma AsListsPairs(doc: seq<Node>)
    requires ItemsOnly(doc)
    ensures forall c :: 0 <= c < |doc| ==>
      AsLists(doc)[c] == List([Str(doc[c].key), doc[c].value]) && doc[c].value.IsScalar()
  {
    AsListsIndex(doc);
    forall c | 0 <= c < |doc|
      ensures AsLists(doc)[c] == List([Str(doc[c].key), doc[c].value]) && doc[c].value.IsScalar()
    {
      ItemAsList(doc[c]);
    }
  }

  lemma PairsFlat(doc: seq<Node>)
    requires ItemsOnly(doc)
    requires forall c :: 0 <= c < |doc| ==>
      AsLists(doc)[c] == List([Str(doc[c].key), doc[c].value]) && doc[c].value.IsScalar()
    ensures FlatItems(AsLists(doc))
  {
    var items := AsLists(doc);
    forall i | 0 <= i < |items|
      ensures IsListPair(items[i]) && items[i].elems[0].Str? && items[i].elems[1].IsScalar()
    {
      assert items[i] == List([Str(doc[i].key), doc[i].value]);
    }
  }

  /** A rendered item has a scalar value and reads as [key, value]. */
  lemma ItemAsList(n: Node)
    requires n.Item? && Renderable(n)
    ensures n.value.IsScalar() && AsList(n) == List([Str(n.key), n.value])
  {
  }

  lemma {:induction false} AsListsIndex(doc: seq<Node>)
    ensures forall c :: 0 <= c < |doc| ==> AsLists(doc)[c] == AsList(doc[c])
    decreases doc
  {
    if doc != [] {
      AsListsTail(doc);
      AsListsIndex(doc[1..]);
      forall c | 1 <= c < |doc| ensures AsLists(doc)[c] == AsList(doc[c]) {
        assert AsLists(doc)[c] == AsLists(doc)[1..][c - 1];
        assert doc[c] == doc[1..][c - 1];
      }
    }
  }

  /** No item has key k: dict(...) has nothing under it. */
  lemma {:induction false} NoItemNoValue(doc: seq<Node>, k: string)
    requires ItemsOnly(doc) && forall j :: 0 <= j < |doc| ==> doc[j].key != k
    ensures FlatItems(AsLists(doc)) && LastValue(AsLists(doc), Str(k)).None?
    decreases doc
  {
    AsListsFlat(doc);
    if doc != [] {
      AsListsTail(doc);
      NoItemNoValue(doc[1..], k);
    }
  }

  /** The last item with key k gives the value under k. */
  lemma {:induction false} LastItemValue(doc: seq<Node>, k: string, i: nat)
    requires ItemsOnly(doc) && LastItem(doc, k, i)
    ensures FlatItems(AsLists(doc)) && LastValue(AsLists(doc), Str(k)) == Some(doc[i].value)
    decreases doc
  {
    AsListsFlat(doc);
    AsListsTail(doc);
    if i == 0 {
      NoItemNoValue(doc[1..], k);
    } else {
      assert LastItem(doc[1..], k, i - 1);
      LastItemValue(doc[1..], k, i - 1);
    }
  }

  /** A document of plain items parses to dict(items). */
  lemma ItemsDict(doc: seq<Node>)
    requires ItemsOnly(doc) && NoTabs(RenderNodes(doc))
    ensures FlatItems(AsLists(doc)) && DictInto([], AsLists(doc)).Success?
    ensures Parse(RenderNodes(doc)) == Success(Dict(DictInto([], AsLists(doc)).value))
  {
    AsListsFlat(doc);
    ParseRendered(doc);
    FlatItemsNormalise(AsLists(doc));
  }

  /** A document of plain items, in any number, parses to a dict holding
      each key once, with the value of the last item that sets it; keys no
      item sets are absent. */
  lemma ItemsLastWins(doc: seq<Node>, k: string)
    requires ItemsOnly(doc) && NoTabs(RenderNodes(doc))
    ensures Parse(RenderNodes(doc)).Success?
    ensures UniqueKeys(Parse(RenderNodes(doc)).value.entries)
    ensures forall i: nat :: LastItem(doc, k, i) ==> Lookup(Parse(RenderNodes(doc)).value.entries, Str(k)) == Some(Raw(doc[i].value))
    ensures (forall j :: 0 <= j < |doc| ==> doc[j].key != k) ==> Lookup(Parse(RenderNodes(doc)).value.entries, Str(k)).None?
  {
    ItemsDict(doc);
    var items := AsLists(doc);
    var entries := DictInto([], items).value;
    assert UniqueKeys(entries) by {
      assert UniqueKeys<Value>([]);
    }
    DictIntoLastWins([], items, Str(k));
    forall i: nat | LastItem(doc, k, i)
      ensures Lookup(entries, Str(k)) == Some(Raw(doc[i].value))
    {
      LastItemValue(doc, k, i);
    }
    if forall j :: 0 <= j < |doc| ==> doc[j].key != k {
      NoItemNoValue(doc, k);
    }
  }

  /** One item: {key: value}. */
  lemma OneItemDict(k: string, v: Obj)
    requires v.IsScalar()
    ensures ToDictSpec(List([List([Str(k), v])])) == Success(Dict([(Str(k), Raw(v))]))
  {
    var items := [List([Str(k), v])];
    FlatItemsNormalise(items);
    assert items[1..] == [];
    assert DictInto([], items) == DictInto([(Str(k), Raw(v))], []);
  }

  /** No character of s is a tab, a line feed or a carriage return, so
      each one moves the column on by one. */
  predicate Plain(s: string)
  {
    forall k :: 0 <= k < |s| ==> s[k] != '\t' && s[k] != '\n' && s[k] != '\r'
  }

  lemma PlainJoin(a: string, b: string)
    requires Plain(a) && Plain(b)
    ensures Plain(a + b)
  {
    forall k | 0 <= k < |a + b| ensures (a + b)[k] != '\t' && (a + b)[k] != '\n' && (a + b)[k] != '\r' {
      if k >= |a| { assert (a + b)[k] == b[k - |a|]; }
    }
  }

  lemma NoTabsJoin(a: string, b: string)
    requires NoTabs(a) && NoTabs(b)
    ensures NoTabs(a + b)
  {
    forall k | 0 <= k < |a + b| ensures (a + b)[k] != '\t' {
      if k >= |a| { assert (a + b)[k] == b[k - |a|]; }
    }
  }

  lemma KeyPlain(k: string)
    requires ValidKey(k)
    ensures Plain(k)
  {
  }

  /** The text ends in a line feed, so there is no NUL to strip, and it has
      no tab, so expansion leaves it alone. */
  lemma ReadAsIs(text: string)
    requires NoTabs(text) && text != [] && text[|text| - 1] == '\n'
    ensures ExpandTabs(StripNul(text)) == text
  {
  }

  /** parse from the tree the grammar reads and what to_dict makes of it. */
  lemma ParseFrom(text: string, nodes: seq<Node>, v: Value)
    requires ParseDocument(ExpandTabs(StripNul(text))) == Some(nodes)
    requires ToDictSpec(List(AsLists(nodes))) == Success(v)
    ensures Parse(text) == Success(v)
  {
  }

  /** A single item reads as a one-entry dict. */
  lemma OneItemTree(k: string, v: Obj)
    requires v.IsScalar()
    ensures ToDictSpec(List(AsLists([Item(k, v)]))) == Success(Dict([(Str(k), Raw(v))]))
  {
    assert AsLists([Item(k, v)]) == [List([Str(k), v])];
    OneItemDict(k, v);
  }

  /** A document of one item line parses to {key: value}. */
  lemma OneItemParse(k: string, v: Obj)
    requires Renderable(Item(k, v)) && NoTabs(RenderNode(Item(k, v)))
    ensures Parse(RenderNode(Item(k, v))) == Success(Dict([(Str(k), Raw(v))]))
  {
    var s := RenderNode(Item(k, v));
    var doc := [Item(k, v)];
    assert RenderNodes(doc) == s + "" == s;
    ReadAsIs(s);
    DocumentRoundTrip(doc);
    OneItemTree(k, v);
    ParseFrom(s, doc, Dict([(Str(k), Raw(v))]));
  }

  /** `key = TRUE` and `key = FALSE` give booleans. */
  lemma BooleanItem(k: string, b: bool)
    requires ValidKey(k)
    ensures Parse(k + " = " + (if b then "TRUE" else "FALSE") + "\n") == Success(Dict([(Str(k), Raw(Bool(b)))]))
  {
    var lit := " = " + (if b then "TRUE" else "FALSE") + "\n";
    assert NoTabs(lit);
    KeyPlain(k);
    NoTabsJoin(k, lit);
    assert k + lit == RenderNode(Item(k, Bool(b)));
    OneItemParse(k, Bool(b));
  }

  /** A string runs from its quote to the end of the line and has no
      closing quote: `name = "hello` gives {name: "hello"}, and a quote
      inside stays part of it. */
  lemma UnterminatedString(k: string, x: string)
    requires ValidKey(k) && NoTabs(x) && forall c :: 0 <= c < |x| ==> x[c] != '\n'
    ensures Parse(k + " = \"" + x + "\n") == Success(Dict([(Str(k), Raw(Str(x)))]))
  {
    KeyPlain(k);
    NoTabsJoin(k, " = \"");
    NoTabsJoin(k + " = \"", x);
    NoTabsJoin(k + " = \"" + x, "\n");
    assert k + " = \"" + x + "\n" == RenderNode(Item(k, Str(x)));
    OneItemParse(k, Str(x));
  }

  /** A tab inside a string is expanded before the text is read, counting
      columns from the start of the line: it becomes the spaces up to the
      next tab stop. */
  lemma TabInString(k: string, a: string, b: string)
    requires ValidKey(k) && Plain(a) && NoTabs(b) && forall c :: 0 <= c < |b| ==> b[c] != '\n'
    ensures Parse(k + " = \"" + a + "\t" + b + "\n")
      == Success(Dict([(Str(k), Raw(Str(a + Spaces(Pad(|k| + 4 + |a|)) + b)))]))
  {
    var x := a + Spaces(Pad(|k| + 4 + |a|)) + b;
    TabExpanded(k, a, b);
    TabbedValue(a, Pad(|k| + 4 + |a|), b);
    var n := Item(k, Str(x));
    TabRegroup(k, a, Spaces(Pad(|k| + 4 + |a|)), b);
    OneItemRendered(n);
    OneItemTree(k, Str(x));
    ParseFrom(k + " = \"" + a + "\t" + b + "\n", [n], Dict([(Str(k), Raw(Str(x)))]));
  }

  lemma TabExpanded(k: string, a: string, b: string)
    requires ValidKey(k) && Plain(a) && NoTabs(b)
    ensures ExpandTabs(StripNul(k + " = \"" + a + "\t" + b + "\n"))
      == k + " = \"" + a + Spaces(Pad(|k| + 4 + |a|)) + (b + "\n")
  {
    var p := k + " = \"" + a;
    var q := b + "\n";
    StringLineStart(k, a);
    NoTabsJoin(b, "\n");
    TabLineExpanded(p, q);
    assert k + " = \"" + a + "\t" + b + "\n" == p + "\t" + q;
  }

  /** One tab after plain text, on a line that ends the text. */
  lemma TabLineExpanded(p: string, q: string)
    requires Plain(p) && NoTabs(q) && q != [] && q[|q| - 1] == '\n'
    ensures ExpandTabs(StripNul(p + "\t" + q)) == p + Spaces(Pad(|p|)) + q
  {
    var text := p + "\t" + q;
    assert StripNul(text) == text by { assert text[|text| - 1] == '\n'; }
    ExpandTabsIs(text);
    TabStop(p, q, 0);
    ExpandNoTabs(q, |p| + Pad(|p|));
  }

  lemma ExpandTabsIs(s: string)
    ensures ExpandTabs(s) == ExpandTabsFrom(s, 0)
  {
  }

  lemma StringLineStart(k: string, a: string)
    requires ValidKey(k) && Plain(a)
    ensures Plain(k + " = \"" + a) && |k + " = \"" + a| == |k| + 4 + |a|
  {
    KeyPlain(k);
    PlainJoin(k, " = \"");
    PlainJoin(k + " = \"", a);
  }

  lemma TabbedValue(a: string, w: nat, b: string)
    requires NoTabs(a) && NoTabs(b) && forall c :: 0 <= c < |a| ==> a[c] != '\n'
    requires forall c :: 0 <= c < |b| ==> b[c] != '\n'
    ensures var x := a + Spaces(w) + b; forall c :: 0 <= c < |x| ==> x[c] != '\n'
  {
    var x := a + Spaces(w) + b;
    forall c | 0 <= c < |x| ensures x[c] != '\n' {
      if c < |a| { assert x[c] == a[c]; }
      else if c >= |a| + w { assert x[c] == b[c - |a| - w]; }
    }
  }

  lemma TabRegroup(k: string, a: string, sp: string, b: string)
    ensures k + " = \"" + a + sp + (b + "\n") == k + " = " + ("\"" + (a + sp + b)) + "\n"
  {
  }

  /** The text of a single item parses back to that item. */
  lemma OneItemRendered(n: Node)
    requires n.Item? && Renderable(n)
    ensures ParseDocument(RenderNode(n)) == Some([n])
  {
    var s := RenderNode(n);
    var doc := [n];
    assert RenderNodes(doc) == s + "" == s;
    DocumentRoundTrip(doc);
  }

  /** A float followed by free text on its line parses to the float alone:
      the text after it is read and dropped. */
  lemma ParseRealWithTrailer(k: string, lexeme: string, trailer: string)
    requires ValidKey(k) && RealEnd(lexeme, 0) == Some(|lexeme|)
    requires forall c :: 0 <= c < |trailer| ==> trailer[c] != '\n' && trailer[c] != '\t'
    requires trailer == [] || !IsDigit(trailer[0])
    ensures Parse(k + " = " + (lexeme + trailer) + "\n") == Success(Dict([(Str(k), Raw(Real(lexeme)))]))
  {
    var s := k + " = " + (lexeme + trailer) + "\n";
    RealLineText(k, lexeme, trailer);
    RealTrailerDocument(k, lexeme, trailer);
    OneItemTree(k, Real(lexeme));
    ParseFrom(s, [Item(k, Real(lexeme))], Dict([(Str(k), Raw(Real(lexeme)))]));
  }

  lemma RealLineText(k: string, lexeme: string, trailer: string)
    requires ValidKey(k) && RealEnd(lexeme, 0) == Some(|lexeme|)
    requires forall c :: 0 <= c < |trailer| ==> trailer[c] != '\n' && trailer[c] != '\t'
    ensures var s := k + " = " + (lexeme + trailer) + "\n"; ExpandTabs(StripNul(s)) == s
  {
    RealLexemeChars(lexeme);
    KeyPlain(k);
    NoTabsJoin(k, " = ");
    NoTabsJoin(lexeme, trailer);
    NoTabsJoin(k + " = ", lexeme + trailer);
    NoTabsJoin(k + " = " + (lexeme + trailer), "\n");
    ReadAsIs(k + " = " + (lexeme + trailer) + "\n");
  }

  /** A real lexeme is made of a sign, digits and a decimal point. */
  lemma RealLexemeChars(lexeme: string)
    requires RealEnd(lexeme, 0) == Some(|lexeme|)
    ensures forall c :: 0 <= c < |lexeme| ==> lexeme[c] == '+' || lexeme[c] == '-' || lexeme[c] == '.' || IsDigit(lexeme[c])
  {
    RealLexemeParts(lexeme);
    var a := SignEnd(lexeme, 0);
    var d := Span(lexeme, a, IsDigit);
    SpanAll(lexeme, a, IsDigit);
    SpanAll(lexeme, d + 1, IsDigit);
  }
}
