/** A writer for the settings language, and the proof that the grammar
    reads back exactly the tree it was given. */
module Render {
  import opened Wrappers
  import opened PyObj
  import opened Grammar

  function NatToString(n: nat): (r: string)
    ensures |r| > 0 && forall k :: 0 <= k < |r| ==> IsDigit(r[k])
    decreases n
  {
    if n < 10 then [('0' as int + n) as char]
    else NatToString(n / 10) + [('0' as int + n % 10) as char]
  }

  function IntToString(x: int): (r: string)
    ensures |r| > 0 && (IsDigit(r[0]) || r[0] == '-')
    ensures forall k :: 1 <= k < |r| ==> IsDigit(r[k])
  {
    if x < 0 then "-" + NatToString(-x) else NatToString(x)
  }

  predicate ValidKey(k: string)
  {
    k != [] && forall c :: 0 <= c < |k| ==> IsKeyChar(k[c])
  }

  /** The values the writer can express: a float is written as a lexeme the
      real-number pattern matches entirely; a string has no line break. */
  predicate ValidValue(v: Obj)
  {
    match v
    case Bool(_) => true
    case Int(_) => true
    case Real(lexeme) => RealEnd(lexeme, 0) == Some(|lexeme|)
    case Str(x) => forall c :: 0 <= c < |x| ==> x[c] != '\n'
    case List(_) => false
  }

  predicate Renderable(n: Node)
  {
    match n
    case Item(k, v) => ValidKey(k) && ValidValue(v)
    case Block(k, body) =>
      ValidKey(k)
      && ((forall c :: 0 <= c < |body| ==> body[c].Item?) || (forall c :: 0 <= c < |body| ==> body[c].Block?))
      && forall c :: 0 <= c < |body| ==> Renderable(body[c])
  }

  function RenderValue(v: Obj): string
    requires ValidValue(v)
  {
    match v
    case Bool(b) => if b then "TRUE" else "FALSE"
    case Int(x) => IntToString(x)
    case Real(lexeme) => lexeme
    case Str(x) => "\"" + x
  }

  /** `key = value` or `key {`, the body, and `}`, each on its own line. */
  function RenderNode(n: Node): string
    requires Renderable(n)
  {
    match n
    case Item(k, v) => k + " = " + RenderValue(v) + "\n"
    case Block(k, body) => k + " {\n" + RenderNodes(body) + "}\n"
  }

  function RenderNodes(ns: seq<Node>): string
    requires forall c :: 0 <= c < |ns| ==> Renderable(ns[c])
    decreases ns
  {
    if ns == [] then "" else RenderNode(ns[0]) + RenderNodes(ns[1..])
  }

  /** t occurs in s at position i, character by character. */
  predicate At(s: string, i: nat, t: string)
    decreases |t|
  {
    if t == [] then i <= |s| else i < |s| && s[i] == t[0] && At(s, i + 1, t[1..])
  }

  lemma {:induction false} AtChar(s: string, i: nat, t: string, k: nat)
    requires At(s, i, t) && k < |t|
    ensures i + k < |s| && s[i + k] == t[k]
    decreases k
  {
    if k > 0 {
      AtChar(s, i + 1, t[1..], k - 1);
    }
  }

  lemma {:induction false} AtSplit(s: string, i: nat, a: string, b: string)
    requires At(s, i, a + b)
    ensures At(s, i, a) && At(s, i + |a|, b)
    decreases |a|
  {
    if a == [] {
      assert a + b == b;
      AtLength(s, i, b);
    } else {
      assert (a + b)[0] == a[0] && (a + b)[1..] == a[1..] + b;
      AtSplit(s, i + 1, a[1..], b);
    }
  }

  lemma {:induction false} AtLength(s: string, i: nat, t: string)
    requires At(s, i, t)
    ensures i + |t| <= |s|
    decreases |t|
  {
    if t != [] {
      AtLength(s, i + 1, t[1..]);
    }
  }

  /** An occurrence is a slice, and a slice is an occurrence. */
  lemma {:induction false} AtSlice(s: string, i: nat, t: string)
    requires At(s, i, t)
    ensures i + |t| <= |s| && s[i..i + |t|] == t
    decreases |t|
  {
    if t != [] {
      AtSlice(s, i + 1, t[1..]);
      assert s[i..i + |t|] == [s[i]] + s[i + 1..i + |t|];
    }
  }

  lemma {:induction false} SliceAt(s: string, i: nat, t: string)
    requires i + |t| <= |s| && s[i..i + |t|] == t
    ensures At(s, i, t)
    decreases |t|
  {
    if t != [] {
      assert s[i] == t[0];
      assert s[i + 1..i + |t|] == t[1..];
      SliceAt(s, i + 1, t[1..]);
    }
  }

  /** Span stops exactly at the first character that fails p. */
  lemma {:induction false} SpanIs(s: string, i: nat, p: char -> bool, j: nat)
    requires i <= j <= |s|
    requires forall k :: i <= k < j ==> p(s[k])
    requires j == |s| || !p(s[j])
    ensures Span(s, i, p) == j
    decreases j - i
  {
    if i < j {
      SpanIs(s, i + 1, p, j);
    }
  }

  /** Writing a number in decimal and reading it back gives the number. */
  lemma {:induction false} NatToStringValue(n: nat)
    ensures DigitsValue(NatToString(n)) == n
    decreases n
  {
    if n >= 10 {
      NatToStringValue(n / 10);
      var r := NatToString(n);
      assert r[..|r| - 1] == NatToString(n / 10);
    }
  }

  lemma IntToStringValue(x: int)
    ensures IntegerValue(IntToString(x)) == x
  {
    var r := IntToString(x);
    if x < 0 {
      assert r[1..] == NatToString(-x);
      NatToStringValue(-x);
    } else {
      NatToStringValue(x);
    }
  }

  /** When the real pattern matches, Float is the longer alternative of
      Number: an integer match stops before the decimal point. */
  lemma RealOutrunsInteger(s: string, j: nat)
    requires j <= |s| && RealEnd(s, j).Some?
    ensures IntegerEnd(s, j).None? || IntegerEnd(s, j).value < RealEnd(s, j).value
  {
  }

  /** Hence Number yields a float whenever the real pattern matches, and
      it consumes the rest of that line. */
  lemma NumberPrefersReal(s: string, i: nat)
    requires i <= |s| && RealEnd(s, SkipWs(s, i)).Some?
    ensures Number(s, i).Ok? && Number(s, i).value.Real?
    ensures Number(s, i).next == RestOfLine(s, RealEnd(s, SkipWs(s, i)).value)
  {
    RealOutrunsInteger(s, SkipWs(s, i));
  }

  /** A real lexeme starts with a sign, a digit or a decimal point. */
  lemma RealLexemeStart(lexeme: string)
    requires RealEnd(lexeme, 0) == Some(|lexeme|)
    ensures |lexeme| > 0 && (lexeme[0] == '+' || lexeme[0] == '-' || lexeme[0] == '.' || IsDigit(lexeme[0]))
  {
  }

  /** A span inside a copy of t placed at j ends where it ends in t, as
      long as it does not run off t's end into text that continues it. */
  lemma SpanAt(s: string, j: nat, t: string, a: nat, p: char -> bool)
    requires j + |t| <= |s| && s[j..j + |t|] == t && a <= |t|
    requires Span(t, a, p) < |t| || j + |t| == |s| || !p(s[j + |t|])
    ensures Span(s, j + a, p) == j + Span(t, a, p)
  {
    var d := Span(t, a, p);
    SpanAll(t, a, p);
    forall k | j + a <= k < j + d ensures p(s[k]) {
      assert s[k] == s[j..j + |t|][k - j];
    }
    if d < |t| {
      assert s[j + d] == s[j..j + |t|][d];
    }
    SpanIs(s, j + a, p, j + d);
  }

  /** The real pattern matches at j and ends at e: a sign ending at a,
      digits up to a point at d, digits up to e, and a digit on at least
      one side of the point. */
  lemma RealEndIs(s: string, j: nat, a: nat, d: nat, e: nat)
    requires j <= |s| && SignEnd(s, j) == a && Span(s, a, IsDigit) == d
    requires d < |s| && s[d] == '.' && Span(s, d + 1, IsDigit) == e
    requires d > a || e > d + 1
    ensures RealEnd(s, j) == Some(e)
  {
  }

  /** The real pattern finds a whole lexeme inside a longer text when a
      non-digit follows it. */
  lemma RealEndAt(s: string, j: nat, lexeme: string)
    requires RealEnd(lexeme, 0) == Some(|lexeme|)
    requires At(s, j, lexeme) && j + |lexeme| < |s| && !IsDigit(s[j + |lexeme|])
    ensures RealEnd(s, j) == Some(j + |lexeme|)
  {
    AtSlice(s, j, lexeme);
    RealLexemeParts(lexeme);
    var a0 := SignEnd(lexeme, 0);
    RealEndInside(s, j, lexeme, a0, Span(lexeme, a0, IsDigit));
  }

  /** A whole real lexeme: sign, digits, a point, digits, with a digit on
      at least one side of the point. */
  lemma RealLexemeParts(t: string)
    requires RealEnd(t, 0) == Some(|t|)
    ensures var a := SignEnd(t, 0); var d := Span(t, a, IsDigit);
      d < |t| && t[d] == '.' && Span(t, d + 1, IsDigit) == |t| && (d > a || d + 1 < |t|)
  {
  }

  /** The same, given the lexeme's sign end a0 and point d0. */
  lemma RealEndInside(s: string, j: nat, lexeme: string, a0: nat, d0: nat)
    requires a0 == SignEnd(lexeme, 0) && d0 == Span(lexeme, a0, IsDigit)
    requires d0 < |lexeme| && lexeme[d0] == '.' && Span(lexeme, d0 + 1, IsDigit) == |lexeme|
    requires d0 > a0 || d0 + 1 < |lexeme|
    requires j + |lexeme| < |s| && s[j..j + |lexeme|] == lexeme && !IsDigit(s[j + |lexeme|])
    ensures RealEnd(s, j) == Some(j + |lexeme|)
  {
    SignDigitsAt(s, j, lexeme, a0, d0);
    PointDigitsAt(s, j, lexeme, d0);
    RealEndIs(s, j, j + a0, j + d0, j + |lexeme|);
  }

  /** The sign and the digits before the point sit at the same offsets in
      the text as in the lexeme. */
  lemma SignDigitsAt(s: string, j: nat, lexeme: string, a0: nat, d0: nat)
    requires a0 == SignEnd(lexeme, 0) && d0 == Span(lexeme, a0, IsDigit) && d0 < |lexeme|
    requires j + |lexeme| <= |s| && s[j..j + |lexeme|] == lexeme
    ensures SignEnd(s, j) == j + a0 && Span(s, j + a0, IsDigit) == j + d0
  {
    assert s[j] == s[j..j + |lexeme|][0];
    SpanAt(s, j, lexeme, a0, IsDigit);
  }

  /** So do the point and the digits after it, which run to the lexeme's
      end when a non-digit follows it. */
  lemma PointDigitsAt(s: string, j: nat, lexeme: string, d0: nat)
    requires d0 < |lexeme| && lexeme[d0] == '.' && Span(lexeme, d0 + 1, IsDigit) == |lexeme|
    requires j + |lexeme| < |s| && s[j..j + |lexeme|] == lexeme && !IsDigit(s[j + |lexeme|])
    ensures s[j + d0] == '.' && Span(s, j + d0 + 1, IsDigit) == j + |lexeme|
  {
    assert s[j + d0] == s[j..j + |lexeme|][d0];
    SpanAt(s, j, lexeme, d0 + 1, IsDigit);
  }

  lemma NumberOfInt(s: string, b: nat, j: nat, x: int)
    requires At(s, j, IntToString(x) + "\n") && b <= j && SkipWs(s, b) == j
    ensures Number(s, b) == Ok(Int(x), j + |IntToString(x)|)
  {
    var r := IntToString(x);
    AtSplit(s, j, r, "\n");
    AtSlice(s, j, r);
    AtChar(s, j, r + "\n", |r|);
    assert s[j] == s[j..j + |r|][0];
    var a0 := if x < 0 then 1 else 0;
    assert SignEnd(s, j) == j + a0;
    SpanIs(r, a0, IsDigit, |r|);
    SpanAt(s, j, r, a0, IsDigit);
    assert IntegerEnd(s, j) == Some(j + |r|);
    assert RealEnd(s, j).None?;
    IntToStringValue(x);
  }

  lemma NumberOfReal(s: string, b: nat, j: nat, lexeme: string)
    requires RealEnd(lexeme, 0) == Some(|lexeme|)
    requires At(s, j, lexeme + "\n") && b <= j && SkipWs(s, b) == j
    ensures Number(s, b) == Ok(Real(lexeme), j + |lexeme|)
  {
    AtSplit(s, j, lexeme, "\n");
    AtChar(s, j, lexeme + "\n", |lexeme|);
    assert lexeme + [] == lexeme;
    NumberWithTrailer(s, b, j, lexeme, []);
  }

  lemma NumberOfQuote(s: string, b: nat, j: nat)
    requires b <= j < |s| && SkipWs(s, b) == j && s[j] == '"'
    ensures Number(s, b) == Fail
  {
    SpanIs(s, j, IsDigit, j);
  }

  /** The shape of ` value\n` at b: the space is skipped and the value's
      characters follow it, then the line break. */
  lemma ValueLine(s: string, b: nat, r: string)
    requires |r| > 0 && !IsWhite(r[0]) && At(s, b, " " + r + "\n")
    ensures SkipWs(s, b) == b + 1 && At(s, b + 1, r + "\n") && At(s, b + 1, r)
    ensures s[b + 1] == r[0]
    ensures b + 1 + |r| < |s| && s[b + 1 + |r|] == '\n'
  {
    var j := b + 1;
    assert " " + r + "\n" == " " + (r + "\n");
    AtSplit(s, b, " ", r + "\n");
    AtSplit(s, j, r, "\n");
    AtChar(s, b, " " + r + "\n", 0);
    AtChar(s, j, r, 0);
    AtChar(s, j, r + "\n", |r|);
    SpanIs(s, b, IsWhite, j);
  }

  /** Neither boolean literal matches where the text does not start with
      its first letter. */
  lemma NotBoolean(s: string, b: nat, j: nat)
    requires b <= j < |s| && SkipWs(s, b) == j && s[j] != 'T' && s[j] != 'F'
    ensures Literal(s, b, "TRUE").Fail? && Literal(s, b, "FALSE").Fail?
  {
    assert j + 4 <= |s| ==> s[j..j + 4][0] == s[j];
    assert j + 5 <= |s| ==> s[j..j + 5][0] == s[j];
  }

  /** Past the booleans, a value is a number if one matches, else a string. */
  lemma ValueSteps(s: string, b: nat)
    requires b <= |s| && Literal(s, b, "TRUE").Fail? && Literal(s, b, "FALSE").Fail?
    ensures ParseValue(s, b) == if Number(s, b).Ok? then Number(s, b) else QuotedString(s, b)
  {
  }

  lemma BoolRendered(s: string, b: nat, x: bool)
    requires At(s, b, " " + RenderValue(Bool(x)) + "\n")
    ensures ParseValue(s, b) == Ok(Bool(x), b + 1 + |RenderValue(Bool(x))|)
  {
    var r := RenderValue(Bool(x));
    ValueLine(s, b, r);
    var j := b + 1;
    AtSlice(s, j, r);
    if x {
      assert Literal(s, b, "TRUE") == Ok((), j + 4);
    } else {
      assert Literal(s, b, "TRUE").Fail? by { assert j + 4 <= |s| ==> s[j..j + 4][0] == 'F'; }
      assert Literal(s, b, "FALSE") == Ok((), j + 5);
    }
  }

  lemma IntRendered(s: string, b: nat, x: int)
    requires At(s, b, " " + RenderValue(Int(x)) + "\n")
    ensures ParseValue(s, b) == Ok(Int(x), b + 1 + |RenderValue(Int(x))|)
  {
    ValueLine(s, b, IntToString(x));
    NotBoolean(s, b, b + 1);
    NumberOfInt(s, b, b + 1, x);
    ValueSteps(s, b);
  }

  lemma RealRendered(s: string, b: nat, lexeme: string)
    requires RealEnd(lexeme, 0) == Some(|lexeme|)
    requires At(s, b, " " + RenderValue(Real(lexeme)) + "\n")
    ensures ParseValue(s, b) == Ok(Real(lexeme), b + 1 + |RenderValue(Real(lexeme))|)
  {
    RealLexemeStart(lexeme);
    ValueLine(s, b, lexeme);
    NotBoolean(s, b, b + 1);
    NumberOfReal(s, b, b + 1, lexeme);
    ValueSteps(s, b);
  }

  /** The characters of an occurrence all satisfy what those of t do. */
  lemma AtAll(s: string, i: nat, t: string, p: char -> bool)
    requires At(s, i, t) && forall c :: 0 <= c < |t| ==> p(t[c])
    ensures i + |t| <= |s| && forall k :: i <= k < i + |t| ==> p(s[k])
  {
    AtLength(s, i, t);
    forall k | i <= k < i + |t| ensures p(s[k]) { AtChar(s, i, t, k - i); }
  }

  /** A quote at j followed by a line without a break is that string. */
  lemma QuotedAt(s: string, b: nat, j: nat, x: string)
    requires forall c :: 0 <= c < |x| ==> NotNewline(x[c])
    requires b <= j && At(s, j, "\"" + x) && SkipWs(s, b) == j
    requires j + 1 + |x| < |s| && s[j + 1 + |x|] == '\n'
    ensures QuotedString(s, b) == Ok(Str(x), j + 1 + |x|)
  {
    AtSplit(s, j, "\"", x);
    AtChar(s, j, "\"", 0);
    AtSlice(s, j + 1, x);
    AtAll(s, j + 1, x, NotNewline);
    SpanIs(s, j + 1, NotNewline, j + 1 + |x|);
  }

  lemma StrRendered(s: string, b: nat, x: string)
    requires forall c :: 0 <= c < |x| ==> x[c] != '\n'
    requires At(s, b, " " + RenderValue(Str(x)) + "\n")
    ensures ParseValue(s, b) == Ok(Str(x), b + 1 + |RenderValue(Str(x))|)
  {
    var r := RenderValue(Str(x));
    ValueLine(s, b, r);
    NotBoolean(s, b, b + 1);
    NumberOfQuote(s, b, b + 1);
    QuotedAt(s, b, b + 1, x);
    ValueSteps(s, b);
  }

  /** A rendered value reads back as itself, up to its line break. */
  lemma ValueRendered(s: string, b: nat, v: Obj)
    requires ValidValue(v) && At(s, b, " " + RenderValue(v) + "\n")
    ensures ParseValue(s, b) == Ok(v, b + 1 + |RenderValue(v)|)
  {
    match v
    case Bool(x) => BoolRendered(s, b, x);
    case Int(x) => IntRendered(s, b, x);
    case Real(lexeme) => RealRendered(s, b, lexeme);
    case Str(x) => StrRendered(s, b, x);
  }

  /** A key followed by a space is read as that key. */
  lemma KeyAt(s: string, i: nat, k: string)
    requires ValidKey(k) && At(s, i, k) && i + |k| < |s| && s[i + |k|] == ' '
    ensures SkipWs(s, i) == i
    ensures Key(s, i) == Ok(k, i + |k|)
  {
    AtSlice(s, i, k);
    forall c | 0 <= c < |k| ensures s[i + c] == k[c] { AtChar(s, i, k, c); }
    SpanIs(s, i, IsWhite, i);
    SpanIs(s, i, IsKeyChar, i + |k|);
  }

  /** After a space, the default whitespace skip stops at the next
      non-white character. */
  lemma AfterSpace(s: string, a: nat)
    requires a + 1 < |s| && s[a] == ' ' && !IsWhite(s[a + 1])
    ensures SkipWs(s, a) == a + 1 && s[a + 1..a + 2] == [s[a + 1]]
  {
    SpanIs(s, a, IsWhite, a + 1);
  }

  /** A line break at c, possibly the last character, ends a line there. */
  lemma LineEndAt(s: string, c: nat)
    requires c < |s| && s[c] == '\n'
    ensures LineEnd(s, c) == Ok((), c + 1)
  {
    SpanIs(s, c, IsBlank, c);
  }

  /** At a closing brace or at the end of the text neither an item nor a
      block starts: there is no key there. */
  lemma StopFails(s: string, p: nat)
    requires p <= |s| && (p == |s| || s[p] == '}')
    ensures SkipWs(s, p) == p && Key(s, p).Fail?
    ensures ParseItem(s, p).Fail? && ParseBlock(s, p).Fail? && ParseEntry(s, p).Fail?
  {
    SpanIs(s, p, IsWhite, p);
    SpanIs(s, p, IsKeyChar, p);
  }

  /** The layout of `key = value` on its line: the key ends at a, the
      value's line starts at a + 2 and the line break is at c. */
  lemma ItemText(s: string, i: nat, k: string, rv: string, a: nat, c: nat)
    requires At(s, i, k + " = " + rv + "\n") && a == i + |k| && c == a + 3 + |rv|
    ensures At(s, i, k) && a + 1 < |s| && s[a] == ' ' && s[a + 1] == '='
    ensures At(s, a + 2, " " + rv + "\n")
    ensures c < |s| && s[c] == '\n'
  {
    var t := " = " + rv + "\n";
    assert k + " = " + rv + "\n" == k + t;
    AtSplit(s, i, k, t);
    assert t == " =" + (" " + rv + "\n");
    AtSplit(s, a, " =", " " + rv + "\n");
    AtChar(s, a, " =", 0);
    AtChar(s, a, " =", 1);
    AtChar(s, a + 2, " " + rv + "\n", |rv| + 1);
  }

  /** The layout of `key {`, the body and `}`: the key ends at a, the
      body starts at c and its closing brace is at d. */
  lemma BlockText(s: string, i: nat, k: string, rb: string, a: nat, c: nat, d: nat)
    requires At(s, i, k + " {\n" + rb + "}\n") && a == i + |k| && c == a + 3 && d == c + |rb|
    ensures At(s, i, k) && a + 2 < |s| && s[a] == ' ' && s[a + 1] == '{' && s[a + 2] == '\n'
    ensures At(s, c, rb) && d + 1 < |s| && s[d] == '}' && s[d + 1] == '\n'
  {
    var t := " {\n" + (rb + "}\n");
    assert k + " {\n" + rb + "}\n" == k + t;
    AtSplit(s, i, k, t);
    AtSplit(s, a, " {\n", rb + "}\n");
    AtChar(s, a, " {\n", 0);
    AtChar(s, a, " {\n", 1);
    AtChar(s, a, " {\n", 2);
    AtSplit(s, c, rb, "}\n");
    AtChar(s, d, "}\n", 0);
    AtChar(s, d, "}\n", 1);
  }

  /** `}` and a line break close a block. */
  lemma ClosingAt(s: string, d: nat)
    requires d + 1 < |s| && s[d] == '}' && s[d + 1] == '\n'
    ensures Literal(s, d, "}") == Ok((), d + 1) && LineEnd(s, d + 1) == Ok((), d + 2)
  {
    SpanIs(s, d, IsWhite, d);
    assert s[d..d + 1] == "}";
    LineEndAt(s, d + 1);
  }

  lemma ItemRendered(s: string, i: nat, n: Node)
    requires n.Item? && Renderable(n) && At(s, i, RenderNode(n))
    ensures ParseItem(s, i) == Ok(n, i + |RenderNode(n)|)
  {
    var k, v := n.key, n.value;
    var rv := RenderValue(v);
    var a := i + |k|;
    var c := a + 3 + |rv|;
    ItemText(s, i, k, rv, a, c);
    ValueRendered(s, a + 2, v);
    ItemFromValue(s, i, k, rv, v, a, c);
  }

  /** How an item's parse is put together from its parts. */
  lemma ItemSteps(s: string, i: nat, k: string, a: nat, v: Obj, c: nat)
    requires i <= |s| && Key(s, i) == Ok(k, a) && Literal(s, a, "=") == Ok((), a + 2)
    requires ParseValue(s, a + 2) == Ok(v, c) && LineEnd(s, c) == Ok((), c + 1)
    ensures ParseItem(s, i) == Ok(Item(k, v), c + 1)
  {
  }

  /** How a block's parse is put together from its parts. */
  lemma BlockSteps(s: string, i: nat, k: string, a: nat, c: nat)
    requires i <= |s| && Key(s, i) == Ok(k, a) && Literal(s, a, "{") == Ok((), a + 2)
    requires LineEnd(s, a + 2) == Ok((), c)
    ensures ParseBlock(s, i) == BlockBody(s, k, c)
  {
  }

  lemma BodySteps(s: string, k: string, c: nat, body: seq<Node>, d: nat)
    requires c <= |s|
    requires (if ParseItems(s, c).1 >= ParseBlocks(s, c).1 then ParseItems(s, c) else ParseBlocks(s, c)) == (body, d)
    requires Literal(s, d, "}") == Ok((), d + 1) && LineEnd(s, d + 1) == Ok((), d + 2)
    ensures BlockBody(s, k, c) == Ok(Block(k, body), d + 2)
  {
  }

  /** A block needs `{` after its key. */
  lemma NoBraceNoBlock(s: string, i: nat)
    requires i <= |s| && Key(s, i).Ok? && Literal(s, Key(s, i).next, "{").Fail?
    ensures ParseBlock(s, i).Fail?
  {
  }

  /** How the runs of items, blocks and entries are put together. */
  lemma ItemsSteps(s: string, i: nat, n: Node, j: nat, ns: seq<Node>, stop: nat)
    requires i <= |s| && ParseItem(s, i) == Ok(n, j) && MoreItems(s, j) == (ns, stop)
    ensures MoreItems(s, i) == ([n] + ns, stop)
  {
  }

  /** A run read from a position the whitespace skip leaves in place is
      the run of zero or more. */
  lemma ItemsFrom(s: string, i: nat, ns: seq<Node>, stop: nat)
    requires i <= |s| && MoreItems(s, i) == (ns, stop) && (ns == [] ==> SkipWs(s, i) == i)
    ensures ParseItems(s, i) == (ns, stop)
  {
  }

  lemma BlocksSteps(s: string, i: nat, n: Node, j: nat, ns: seq<Node>, stop: nat)
    requires i <= |s| && ParseBlock(s, i) == Ok(n, j) && MoreBlocks(s, j) == (ns, stop)
    ensures MoreBlocks(s, i) == ([n] + ns, stop)
  {
  }

  /** A run read from a position the whitespace skip leaves in place is
      the run of zero or more. */
  lemma BlocksFrom(s: string, i: nat, ns: seq<Node>, stop: nat)
    requires i <= |s| && MoreBlocks(s, i) == (ns, stop) && (ns == [] ==> SkipWs(s, i) == i)
    ensures ParseBlocks(s, i) == (ns, stop)
  {
  }

  lemma EntriesSteps(s: string, i: nat, n: Node, j: nat, ns: seq<Node>, stop: nat)
    requires i <= |s| && ParseEntry(s, i) == Ok(n, j) && MoreEntries(s, j) == (ns, stop)
    ensures MoreEntries(s, i) == ([n] + ns, stop)
  {
  }

  /** A run read from a position the whitespace skip leaves in place is
      the run of zero or more. */
  lemma EntriesFrom(s: string, i: nat, ns: seq<Node>, stop: nat)
    requires i <= |s| && MoreEntries(s, i) == (ns, stop) && (ns == [] ==> SkipWs(s, i) == i)
    ensures ParseEntries(s, i) == (ns, stop)
  {
  }

  lemma ItemsNone(s: string, i: nat)
    requires i <= |s| && ParseItem(s, i).Fail?
    ensures ParseItems(s, i) == ([], SkipWs(s, i)) && MoreItems(s, i) == ([], i)
  {
  }

  lemma BlocksNone(s: string, i: nat)
    requires i <= |s| && ParseBlock(s, i).Fail?
    ensures ParseBlocks(s, i) == ([], SkipWs(s, i)) && MoreBlocks(s, i) == ([], i)
  {
  }

  lemma EntriesNone(s: string, i: nat)
    requires i <= |s| && ParseEntry(s, i).Fail?
    ensures ParseEntries(s, i) == ([], SkipWs(s, i)) && MoreEntries(s, i) == ([], i)
  {
  }

  /** An item's text is not a block: `=` stands where `{` is expected. */
  lemma BlockFailsOnItem(s: string, i: nat, k: string, rv: string)
    requires ValidKey(k) && At(s, i, k + " = " + rv + "\n")
    ensures SkipWs(s, i) == i && ParseBlock(s, i).Fail?
  {
    var a := i + |k|;
    ItemText(s, i, k, rv, a, a + 3 + |rv|);
    KeyAt(s, i, k);
    AfterSpace(s, a);
    NoBraceNoBlock(s, i);
  }

  /** A block's text is not an item: `{` stands where `=` is expected. */
  lemma ItemFailsOnBlock(s: string, i: nat, k: string, rb: string)
    requires ValidKey(k) && At(s, i, k + " {\n" + rb + "}\n")
    ensures SkipWs(s, i) == i && ParseItem(s, i).Fail?
  {
    var a := i + |k|;
    BlockText(s, i, k, rb, a, a + 3, a + 3 + |rb|);
    KeyAt(s, i, k);
    AfterSpace(s, a);
    assert Literal(s, a, "=").Fail?;
  }

  /** The text of a non-empty run splits into its first node's text and
      the rest's. */
  lemma NodesCons(s: string, i: nat, ns: seq<Node>, j: nat, stop: nat)
    requires ns != [] && forall c :: 0 <= c < |ns| ==> Renderable(ns[c])
    requires At(s, i, RenderNodes(ns)) && stop == i + |RenderNodes(ns)|
    requires j == i + |RenderNode(ns[0])|
    ensures Renderable(ns[0]) && At(s, i, RenderNode(ns[0]))
    ensures forall c :: 0 <= c < |ns[1..]| ==> Renderable(ns[1..][c])
    ensures At(s, j, RenderNodes(ns[1..])) && stop == j + |RenderNodes(ns[1..])|
    ensures [ns[0]] + ns[1..] == ns
  {
    AtSplit(s, i, RenderNode(ns[0]), RenderNodes(ns[1..]));
  }

  /** A run of rendered items ending at a closing brace or at the end of
      the text is read back as those items. */
  lemma {:induction false} ItemsRendered(s: string, i: nat, ns: seq<Node>, stop: nat)
    requires forall c :: 0 <= c < |ns| ==> ns[c].Item? && Renderable(ns[c])
    requires At(s, i, RenderNodes(ns)) && stop == i + |RenderNodes(ns)|
    requires stop == |s| || (stop < |s| && s[stop] == '}')
    ensures MoreItems(s, i) == (ns, stop)
    decreases ns
  {
    if ns == [] {
      StopFails(s, i);
      ItemsNone(s, i);
    } else {
      var j := i + |RenderNode(ns[0])|;
      NodesCons(s, i, ns, j, stop);
      assert forall c :: 0 <= c < |ns[1..]| ==> ns[1..][c] == ns[c + 1];
      ItemsRendered(s, j, ns[1..], stop);
      ItemsCons(s, i, ns, j, stop);
    }
  }

  /** A rendered item in front of a run read back extends the run. */
  lemma ItemsCons(s: string, i: nat, ns: seq<Node>, j: nat, stop: nat)
    requires ns != [] && ns[0].Item? && Renderable(ns[0]) && At(s, i, RenderNode(ns[0]))
    requires j == i + |RenderNode(ns[0])| && j <= |s| && MoreItems(s, j) == (ns[1..], stop)
    ensures MoreItems(s, i) == (ns, stop)
  {
    ItemRendered(s, i, ns[0]);
    ItemsHead(s, i, ns, j, stop);
  }

  lemma ItemsHead(s: string, i: nat, ns: seq<Node>, j: nat, stop: nat)
    requires i <= |s| && ns != [] && ParseItem(s, i) == Ok(ns[0], j) && MoreItems(s, j) == (ns[1..], stop)
    ensures MoreItems(s, i) == (ns, stop)
  {
    assert [ns[0]] + ns[1..] == ns;
    ItemsSteps(s, i, ns[0], j, ns[1..], stop);
  }


  /** A rendered block is read back as itself. */
  lemma {:induction false} BlockRendered(s: string, i: nat, n: Node)
    requires n.Block? && Renderable(n) && At(s, i, RenderNode(n))
    ensures ParseBlock(s, i) == Ok(n, i + |RenderNode(n)|)
    decreases n, 0
  {
    var k, body := n.key, n.body;
    var rb := RenderNodes(body);
    var a := i + |k|;
    var c := a + 3;
    var d := c + |rb|;
    assert RenderNode(n) == k + " {\n" + rb + "}\n";
    BlockText(s, i, k, rb, a, c, d);
    KeyAt(s, i, k);
    AfterSpace(s, a);
    assert Literal(s, a, "{") == Ok((), a + 2);
    LineEndAt(s, a + 2);
    BlockSteps(s, i, k, a, c);
    assert forall j :: 0 <= j < |body| ==> Renderable(body[j]);
    BodyRendered(s, k, body, c, d);
  }

  /** The body of a rendered block and its closing line are read back. */
  lemma {:induction false} BodyRendered(s: string, k: string, body: seq<Node>, c: nat, d: nat)
    requires forall j :: 0 <= j < |body| ==> Renderable(body[j])
    requires (forall j :: 0 <= j < |body| ==> body[j].Item?) || (forall j :: 0 <= j < |body| ==> body[j].Block?)
    requires At(s, c, RenderNodes(body)) && d == c + |RenderNodes(body)|
    requires d + 1 < |s| && s[d] == '}' && s[d + 1] == '\n'
    ensures BlockBody(s, k, c) == Ok(Block(k, body), d + 2)
    decreases body, 3
  {
    RunRendered(s, c, body, d);
    ClosingAt(s, d);
    BodySteps(s, k, c, body, d);
  }

  /** Of the two runs tried at the start of a body, the one that reads the
      rendered body back is chosen: the items when the body is empty or
      holds items, since a block run then stops at once, and the blocks
      otherwise, since an item run then stops at once. */
  lemma {:induction false} RunRendered(s: string, c: nat, body: seq<Node>, d: nat)
    requires forall j :: 0 <= j < |body| ==> Renderable(body[j])
    requires (forall j :: 0 <= j < |body| ==> body[j].Item?) || (forall j :: 0 <= j < |body| ==> body[j].Block?)
    requires At(s, c, RenderNodes(body)) && d == c + |RenderNodes(body)|
    requires d < |s| && s[d] == '}'
    ensures c <= |s|
    ensures (if ParseItems(s, c).1 >= ParseBlocks(s, c).1 then ParseItems(s, c) else ParseBlocks(s, c)) == (body, d)
    decreases body, 2
  {
    if body == [] {
      StopFails(s, c);
      ItemsNone(s, c);
      BlocksNone(s, c);
    } else if body[0].Item? {
      ItemsRendered(s, c, body, d);
      ItemsFrom(s, c, body, d);
      NodesCons(s, c, body, c + |RenderNode(body[0])|, d);
      BlockFailsOnItem(s, c, body[0].key, RenderValue(body[0].value));
      BlocksNone(s, c);
    } else {
      BlocksRendered(s, c, body, d);
      BlocksFrom(s, c, body, d);
      NodesCons(s, c, body, c + |RenderNode(body[0])|, d);
      ItemFailsOnBlock(s, c, body[0].key, RenderNodes(body[0].body));
      ItemsNone(s, c);
    }
  }

  /** A run of rendered blocks ending at a closing brace or at the end of
      the text is read back as those blocks. */
  lemma {:induction false} BlocksRendered(s: string, i: nat, ns: seq<Node>, stop: nat)
    requires forall c :: 0 <= c < |ns| ==> ns[c].Block? && Renderable(ns[c])
    requires At(s, i, RenderNodes(ns)) && stop == i + |RenderNodes(ns)|
    requires stop == |s| || (stop < |s| && s[stop] == '}')
    ensures MoreBlocks(s, i) == (ns, stop)
    decreases ns, 1
  {
    if ns == [] {
      StopFails(s, i);
      BlocksNone(s, i);
    } else {
      var j := i + |RenderNode(ns[0])|;
      NodesCons(s, i, ns, j, stop);
      assert forall c :: 0 <= c < |ns[1..]| ==> ns[1..][c] == ns[c + 1];
      BlocksRendered(s, j, ns[1..], stop);
      BlocksCons(s, i, ns, j, stop);
    }
  }

  /** A rendered block in front of a run read back extends the run. */
  lemma {:induction false} BlocksCons(s: string, i: nat, ns: seq<Node>, j: nat, stop: nat)
    requires ns != [] && ns[0].Block? && Renderable(ns[0]) && At(s, i, RenderNode(ns[0]))
    requires j == i + |RenderNode(ns[0])| && j <= |s| && MoreBlocks(s, j) == (ns[1..], stop)
    ensures MoreBlocks(s, i) == (ns, stop)
    decreases ns, 0
  {
    BlockRendered(s, i, ns[0]);
    BlocksHead(s, i, ns, j, stop);
  }

  lemma BlocksHead(s: string, i: nat, ns: seq<Node>, j: nat, stop: nat)
    requires i <= |s| && ns != [] && ParseBlock(s, i) == Ok(ns[0], j) && MoreBlocks(s, j) == (ns[1..], stop)
    ensures MoreBlocks(s, i) == (ns, stop)
  {
    assert [ns[0]] + ns[1..] == ns;
    BlocksSteps(s, i, ns[0], j, ns[1..], stop);
  }


  /** Rendered entries running to the end of the text are read back. */
  lemma {:induction false} EntriesRendered(s: string, i: nat, ns: seq<Node>, stop: nat)
    requires forall c :: 0 <= c < |ns| ==> Renderable(ns[c])
    requires At(s, i, RenderNodes(ns)) && stop == i + |RenderNodes(ns)|
    requires stop == |s| || (stop < |s| && s[stop] == '}')
    ensures MoreEntries(s, i) == (ns, stop)
    decreases ns
  {
    if ns == [] {
      StopFails(s, i);
      EntriesNone(s, i);
    } else {
      var j := i + |RenderNode(ns[0])|;
      NodesCons(s, i, ns, j, stop);
      EntriesRendered(s, j, ns[1..], stop);
      EntriesCons(s, i, ns, j, stop);
    }
  }

  /** A rendered entry in front of a run read back extends the run. */
  lemma EntriesCons(s: string, i: nat, ns: seq<Node>, j: nat, stop: nat)
    requires ns != [] && Renderable(ns[0]) && At(s, i, RenderNode(ns[0]))
    requires j == i + |RenderNode(ns[0])| && j <= |s| && MoreEntries(s, j) == (ns[1..], stop)
    ensures MoreEntries(s, i) == (ns, stop)
  {
    EntryRendered(s, i, ns[0]);
    EntriesHead(s, i, ns, j, stop);
  }

  lemma EntriesHead(s: string, i: nat, ns: seq<Node>, j: nat, stop: nat)
    requires i <= |s| && ns != [] && ParseEntry(s, i) == Ok(ns[0], j) && MoreEntries(s, j) == (ns[1..], stop)
    ensures MoreEntries(s, i) == (ns, stop)
  {
    assert [ns[0]] + ns[1..] == ns;
    EntriesSteps(s, i, ns[0], j, ns[1..], stop);
  }


  /** An entry is whichever of an item and a block its text is. */
  lemma EntryRendered(s: string, i: nat, n: Node)
    requires Renderable(n) && At(s, i, RenderNode(n))
    ensures ParseEntry(s, i) == Ok(n, i + |RenderNode(n)|)
  {
    if n.Item? {
      ItemRendered(s, i, n);
    } else {
      ItemFailsOnBlock(s, i, n.key, RenderNodes(n.body));
      BlockRendered(s, i, n);
    }
  }

  /** The grammar reads a rendered document back as the same tree. */
  lemma DocumentRoundTrip(doc: seq<Node>)
    requires forall c :: 0 <= c < |doc| ==> Renderable(doc[c])
    ensures ParseDocument(RenderNodes(doc)) == Some(doc)
  {
    var s := RenderNodes(doc);
    assert s[0..|s|] == s;
    SliceAt(s, 0, s);
    EntriesRendered(s, 0, doc, |s|);
    if doc == [] {
      StopFails(s, 0);
    }
    EntriesFrom(s, 0, doc, |s|);
    SpanIs(s, |s|, IsWhite, |s|);
  }

  /** The whole text must be read: a stray closing brace after a rendered
      document makes the parse fail. */
  lemma TrailingBraceRejected(doc: seq<Node>)
    requires forall c :: 0 <= c < |doc| ==> Renderable(doc[c])
    ensures ParseDocument(RenderNodes(doc) + "}") == None
  {
    var r := RenderNodes(doc);
    var s := r + "}";
    assert s[0..|r|] == r;
    SliceAt(s, 0, r);
    EntriesRendered(s, 0, doc, |r|);
    if doc == [] {
      StopFails(s, 0);
    }
    EntriesFrom(s, 0, doc, |r|);
    SpanIs(s, |r|, IsWhite, |r|);
  }

  /** A real followed by free text on its line reads as the real alone:
      Float swallows the rest of the line and drops it. */
  lemma RealTrailerValue(s: string, b: nat, lexeme: string, trailer: string, e: nat)
    requires RealEnd(lexeme, 0) == Some(|lexeme|)
    requires forall c :: 0 <= c < |trailer| ==> NotNewline(trailer[c])
    requires trailer == [] || !IsDigit(trailer[0])
    requires At(s, b, " " + (lexeme + trailer) + "\n") && e == b + 1 + |lexeme + trailer|
    ensures ParseValue(s, b) == Ok(Real(lexeme), e)
  {
    RealTrailerLine(s, b, lexeme, trailer);
    NumberWithTrailer(s, b, b + 1, lexeme, trailer);
    ValueSteps(s, b);
  }

  /** The line ` <real><trailer>` after an equals sign: one space, then
      text that is no boolean. */
  lemma RealTrailerLine(s: string, b: nat, lexeme: string, trailer: string)
    requires RealEnd(lexeme, 0) == Some(|lexeme|)
    requires At(s, b, " " + (lexeme + trailer) + "\n")
    ensures SkipWs(s, b) == b + 1 && At(s, b + 1, lexeme + trailer)
    ensures b + 1 + |lexeme + trailer| < |s| && s[b + 1 + |lexeme + trailer|] == '\n'
    ensures Literal(s, b, "TRUE").Fail? && Literal(s, b, "FALSE").Fail?
  {
    var r := lexeme + trailer;
    RealLexemeStart(lexeme);
    assert r[0] == lexeme[0];
    ValueLine(s, b, r);
    NotBoolean(s, b, b + 1);
  }

  lemma NumberWithTrailer(s: string, b: nat, j: nat, lexeme: string, trailer: string)
    requires RealEnd(lexeme, 0) == Some(|lexeme|)
    requires forall c :: 0 <= c < |trailer| ==> NotNewline(trailer[c])
    requires trailer == [] || !IsDigit(trailer[0])
    requires At(s, j, lexeme + trailer) && j + |lexeme| + |trailer| < |s| && s[j + |lexeme| + |trailer|] == '\n'
    requires b <= j && SkipWs(s, b) == j
    ensures Number(s, b) == Ok(Real(lexeme), j + |lexeme| + |trailer|)
  {
    TextAfterLexeme(s, j, lexeme, trailer);
    RealEndAt(s, j, lexeme);
    NumberIsReal(s, b, j, lexeme, j + |lexeme| + |trailer|);
  }

  /** Where the real pattern matches, Number reads that float and skips
      the rest of its line. */
  lemma NumberIsReal(s: string, b: nat, j: nat, lexeme: string, e: nat)
    requires b <= j <= |s| && SkipWs(s, b) == j && RealEnd(s, j) == Some(j + |lexeme|)
    requires s[j..j + |lexeme|] == lexeme && RestOfLine(s, j + |lexeme|) == e
    ensures Number(s, b) == Ok(Real(lexeme), e)
  {
    RealOutrunsInteger(s, j);
  }

  /** A lexeme followed by free text up to the line break: a non-digit
      follows the lexeme and the rest of the line runs over the text. */
  lemma TextAfterLexeme(s: string, j: nat, lexeme: string, trailer: string)
    requires forall c :: 0 <= c < |trailer| ==> NotNewline(trailer[c])
    requires trailer == [] || !IsDigit(trailer[0])
    requires At(s, j, lexeme + trailer) && j + |lexeme| + |trailer| < |s| && s[j + |lexeme| + |trailer|] == '\n'
    ensures At(s, j, lexeme) && j + |lexeme| < |s| && !IsDigit(s[j + |lexeme|])
    ensures s[j..j + |lexeme|] == lexeme
    ensures RestOfLine(s, j + |lexeme|) == j + |lexeme| + |trailer|
  {
    LexemeThenText(s, j, lexeme, trailer);
    RestOfLineOver(s, j + |lexeme|, trailer);
    AtSlice(s, j, lexeme);
  }

  /** The lexeme and the text after it, each in its place; a non-digit
      follows the lexeme. */
  lemma LexemeThenText(s: string, j: nat, lexeme: string, trailer: string)
    requires trailer == [] || !IsDigit(trailer[0])
    requires At(s, j, lexeme + trailer) && j + |lexeme| + |trailer| < |s| && s[j + |lexeme| + |trailer|] == '\n'
    ensures At(s, j, lexeme) && At(s, j + |lexeme|, trailer)
    ensures j + |lexeme| < |s| && !IsDigit(s[j + |lexeme|])
  {
    AtSplit(s, j, lexeme, trailer);
    if trailer != [] {
      AtChar(s, j + |lexeme|, trailer, 0);
    }
  }

  /** The rest of the line runs over text without a line break up to the
      break that ends it. */
  lemma RestOfLineOver(s: string, e: nat, t: string)
    requires forall c :: 0 <= c < |t| ==> NotNewline(t[c])
    requires At(s, e, t) && e + |t| < |s| && s[e + |t|] == '\n'
    ensures RestOfLine(s, e) == e + |t|
  {
    AtAll(s, e, t, NotNewline);
    SpanIs(s, e, NotNewline, e + |t|);
  }

  /** `key = <value text>` is an item once the value text at its place
      reads as a value up to the line break. */
  lemma ItemFromValue(s: string, i: nat, k: string, rv: string, v: Obj, a: nat, c: nat)
    requires ValidKey(k) && At(s, i, k + " = " + rv + "\n")
    requires a == i + |k| && c == a + 3 + |rv|
    requires a + 2 <= |s| && ParseValue(s, a + 2) == Ok(v, c)
    ensures ParseItem(s, i) == Ok(Item(k, v), c + 1)
  {
    ItemText(s, i, k, rv, a, c);
    KeyAt(s, i, k);
    AfterSpace(s, a);
    assert Literal(s, a, "=") == Ok((), a + 2);
    LineEndAt(s, c);
    ItemSteps(s, i, k, a, v, c);
  }

  /** In the line `key = <real><trailer>`, the value reads as the real. */
  lemma RealLineValue(k: string, lexeme: string, trailer: string)
    requires ValidKey(k) && RealEnd(lexeme, 0) == Some(|lexeme|)
    requires forall c :: 0 <= c < |trailer| ==> NotNewline(trailer[c])
    requires trailer == [] || !IsDigit(trailer[0])
    ensures var s := k + " = " + (lexeme + trailer) + "\n";
      ParseValue(s, |k| + 2) == Ok(Real(lexeme), |s| - 1)
  {
    var rv := lexeme + trailer;
    var s := k + " = " + rv + "\n";
    ItemLineParts(k, rv);
    RealTrailerValue(s, |k| + 2, lexeme, trailer, |s| - 1);
  }

  /** In the line `key = <text>`, the value part starts two characters
      after the key. */
  lemma ItemLineParts(k: string, rv: string)
    ensures var s := k + " = " + rv + "\n";
      |s| == |k| + 4 + |rv| && At(s, |k| + 2, " " + rv + "\n")
  {
    var s := k + " = " + rv + "\n";
    assert s[0..|s|] == s;
    SliceAt(s, 0, s);
    ItemText(s, 0, k, rv, |k|, |k| + 3 + |rv|);
  }

  /** The line `key = <real><trailer>` is the item key = real. */
  lemma RealLineItem(k: string, lexeme: string, trailer: string)
    requires ValidKey(k) && RealEnd(lexeme, 0) == Some(|lexeme|)
    requires forall c :: 0 <= c < |trailer| ==> NotNewline(trailer[c])
    requires trailer == [] || !IsDigit(trailer[0])
    ensures var s := k + " = " + (lexeme + trailer) + "\n";
      ParseItem(s, 0) == Ok(Item(k, Real(lexeme)), |s|)
  {
    var rv := lexeme + trailer;
    var s := k + " = " + rv + "\n";
    RealLineValue(k, lexeme, trailer);
    assert s[0..|s|] == s;
    SliceAt(s, 0, s);
    ItemFromValue(s, 0, k, rv, Real(lexeme), |k|, |s| - 1);
  }

  /** A one-line document `key = <real><trailer>` parses to that item:
      Float swallows the rest of the line and drops it. */
  lemma RealTrailerDocument(k: string, lexeme: string, trailer: string)
    requires ValidKey(k) && RealEnd(lexeme, 0) == Some(|lexeme|)
    requires forall c :: 0 <= c < |trailer| ==> NotNewline(trailer[c])
    requires trailer == [] || !IsDigit(trailer[0])
    ensures ParseDocument(k + " = " + (lexeme + trailer) + "\n") == Some([Item(k, Real(lexeme))])
  {
    RealLineItem(k, lexeme, trailer);
    OneItemDocument(k + " = " + (lexeme + trailer) + "\n", Item(k, Real(lexeme)));
  }

  /** A text that is one item from start to end is a one-item document. */
  lemma OneItemDocument(s: string, n: Node)
    requires ParseItem(s, 0) == Ok(n, |s|)
    ensures ParseDocument(s) == Some([n])
  {
    assert ParseEntry(s, 0) == Ok(n, |s|);
    StopFails(s, |s|);
    EntriesNone(s, |s|);
    EntriesSteps(s, 0, n, |s|, [], |s|);
    EntriesFrom(s, 0, [n] + [], |s|);
    assert [n] + [] == [n];
    SpanIs(s, |s|, IsWhite, |s|);
  }
}
