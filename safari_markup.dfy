/** `TreeToMathML` and `GetMathMLFromElement` of the Safari extension: the expression tree
    written out directly as a MathML string. Text values are inserted as they are, without
    escaping. */
module SafariMarkup {
  import opened Wrappers
  import opened Strings
  import opened Fragments
  import opened ExprTree
  import opened Templates
  import opened Builder
  import opened PostProcessing
  import opened Render

  /** `"<" + name + ">"` */
  function Tag(name: string): string
  {
    "<" + name + ">"
  }

  /** `"</" + name + ">"` */
  function EndTag(name: string): string
  {
    "</" + name + ">"
  }

  /** The markup of a MathML tree: each element as its start tag (attributes written
      `name=value`), its children's markup and its end tag; a text node as its text. */
  function Serialize(m: MathML): string
  {
    match m
    case MText(d) => d
    case MElement(tag, attrs, cs) => StartTag(tag, attrs) + SerializeList(cs) + EndTag(tag)
  }

  function SerializeList(cs: seq<MathML>): string
  {
    if cs == [] then "" else Serialize(cs[0]) + SerializeList(cs[1..])
  }

  function StartTag(name: string, attrs: seq<(string, string)>): string
  {
    "<" + name + AttrsText(attrs) + ">"
  }

  function AttrsText(attrs: seq<(string, string)>): string
  {
    if attrs == [] then "" else " " + attrs[0].0 + "=" + attrs[0].1 + AttrsText(attrs[1..])
  }

  lemma NoAttrs(name: string)
    ensures StartTag(name, []) == Tag(name)
  {
    assert "<" + name + "" == "<" + name;
  }

  /** `TreeToMathML` of the Safari extension, as written: a stacked script is closed with
      a `msupsup` end tag that matches no start tag. */
  function Markup(n: Node): (r: string)
    ensures |r| > 1 && r[0] == '<'
  {
    var children := MarkupList(n.children);
    match n.kind
    case Row => Tag("mrow") + children + EndTag("mrow")
    case Sqrt => Tag("msqrt") + children + EndTag("msqrt")
    case Radic => Tag("mroot") + children + EndTag("mroot")
    case Frac => Tag("mfrac") + children + EndTag("mfrac")
    case Integral => Tag("msubsup") + Tag("mo") + n.value + EndTag("mo") + children + EndTag("msubsup")
    case Sub =>
      if n.value == "2" then Tag("munder") + children + EndTag("munder")
      else Tag("msub") + children + EndTag("msub")
    case Sup =>
      if n.value == "2" then Tag("mover") + children + EndTag("mover")
      else Tag("msup") + children + EndTag("msup")
    case Su => Tag("msubsup") + children + EndTag("msupsup")
    case Fence =>
      var open := Tag("mo") + CharAt(n.value, 0) + EndTag("mo");
      var close := Tag("mo") + CharAt(n.value, 1) + EndTag("mo");
      if |n.children| == 1 then Tag("mrow") + open + children + close + EndTag("mrow")
      else Tag("mrow") + open + Tag("mrow") + children + EndTag("mrow") + close + EndTag("mrow")
    case Text =>
      var tag := TextTag(n.value, SafariExtension);
      Tag(tag) + n.value + EndTag(tag)
  }

  /** `node.children.map(TreeToMathML).reduce((a, b) => a + b, "")` */
  function MarkupList(cs: seq<Node>): string
  {
    if cs == [] then "" else Markup(cs[0]) + MarkupList(cs[1..])
  }

  /** The intended serialiser: the markup of the same MathML tree the content script
      builds, with the Safari extension's text tags. */
  function FixedMarkup(n: Node): string
  {
    Serialize(ToMathML(n, SafariExtension))
  }

  /** Whether a stacked script occurs anywhere in the tree. */
  predicate HasSu(n: Node)
  {
    n.kind == Su || exists i :: 0 <= i < |n.children| && HasSu(n.children[i])
  }

  lemma TokenMarkup(tag: string, text: string)
    ensures Serialize(Token(tag, text)) == Tag(tag) + text + EndTag(tag)
    ensures SerializeList([Token(tag, text)]) == Tag(tag) + text + EndTag(tag)
  {
    NoAttrs(tag);
    assert SerializeList([MText(text)]) == text + SerializeList([]);
    assert SerializeList([Token(tag, text)]) == Serialize(Token(tag, text)) + SerializeList([]);
  }

  lemma ElementMarkup(tag: string, cs: seq<MathML>)
    ensures Serialize(MElement(tag, [], cs)) == Tag(tag) + SerializeList(cs) + EndTag(tag)
  {
    NoAttrs(tag);
  }

  /** Without a stacked script the serialiser as written writes exactly the intended
      markup: each node's start tag, its children in order, and the matching end tag. */
  lemma {:induction false} MarkupAgrees(n: Node)
    requires !HasSu(n)
    ensures Markup(n) == FixedMarkup(n)
    decreases n, 1
  {
    MarkupListAgrees(n.children);
    match n.kind
    case Integral => IntegralMarkup(n);
    case Fence => FenceMarkup(n);
    case Text => TokenMarkup(TextTag(n.value, SafariExtension), n.value);
    case Row => ElementMarkup("mrow", RenderList(n.children, SafariExtension));
    case Sqrt => ElementMarkup("msqrt", RenderList(n.children, SafariExtension));
    case Radic => ElementMarkup("mroot", RenderList(n.children, SafariExtension));
    case Frac => ElementMarkup("mfrac", RenderList(n.children, SafariExtension));
    case Sub => ElementMarkup(if n.value == "2" then "munder" else "msub", RenderList(n.children, SafariExtension));
    case Sup => ElementMarkup(if n.value == "2" then "mover" else "msup", RenderList(n.children, SafariExtension));
  }

  lemma IntegralMarkup(n: Node)
    requires n.kind == Integral
    requires MarkupList(n.children) == SerializeList(RenderList(n.children, SafariExtension))
    ensures Markup(n) == FixedMarkup(n)
  {
    var cs := RenderList(n.children, SafariExtension);
    TokenMarkup("mo", n.value);
    SerializeListAppend([Token("mo", n.value)], cs);
    ElementMarkup("msubsup", [Token("mo", n.value)] + cs);
  }

  lemma FenceMarkup(n: Node)
    requires n.kind == Fence
    requires MarkupList(n.children) == SerializeList(RenderList(n.children, SafariExtension))
    ensures Markup(n) == FixedMarkup(n)
  {
    var cs := RenderList(n.children, SafariExtension);
    var open, close := Token("mo", CharAt(n.value, 0)), Token("mo", CharAt(n.value, 1));
    TokenMarkup("mo", CharAt(n.value, 0));
    TokenMarkup("mo", CharAt(n.value, 1));
    if |n.children| == 1 {
      FencedOne("mrow", open, cs, close);
    } else {
      ElementMarkup("mrow", cs);
      FencedMany("mrow", open, MElement("mrow", [], cs), close);
    }
  }

  /** An element holding `cs` between two further children writes them in order. */
  lemma FencedOne(tag: string, open: MathML, cs: seq<MathML>, close: MathML)
    ensures Serialize(MElement(tag, [], [open] + cs + [close]))
      == Tag(tag) + Serialize(open) + SerializeList(cs) + Serialize(close) + EndTag(tag)
  {
    SerializeAround(open, cs, close);
    ElementMarkup(tag, [open] + cs + [close]);
    Bracketed(Tag(tag), Serialize(open), SerializeList(cs), Serialize(close), EndTag(tag));
  }

  /** Regrouping the pieces of an element's markup. */
  lemma Bracketed(t: string, a: string, b: string, c: string, e: string)
    ensures t + (a + b + c) + e == t + a + b + c + e
  {
  }

  lemma SerializeAround(open: MathML, cs: seq<MathML>, close: MathML)
    ensures SerializeList([open] + cs + [close]) == Serialize(open) + SerializeList(cs) + Serialize(close)
  {
    SerializeListAppend([open] + cs, [close]);
    SerializeListAppend([open], cs);
    assert SerializeList([open]) == Serialize(open) + SerializeList([]);
    assert SerializeList([close]) == Serialize(close) + SerializeList([]);
  }

  /** An element holding `inner` between two further children writes the three in order. */
  lemma FencedMany(tag: string, open: MathML, inner: MathML, close: MathML)
    ensures Serialize(MElement(tag, [], [open, inner, close]))
      == Tag(tag) + Serialize(open) + Serialize(inner) + Serialize(close) + EndTag(tag)
  {
    SerializeAround(open, [inner], close);
    assert [open] + [inner] + [close] == [open, inner, close];
    assert SerializeList([inner]) == Serialize(inner) + SerializeList([]);
    ElementMarkup(tag, [open, inner, close]);
    Bracketed(Tag(tag), Serialize(open), Serialize(inner), Serialize(close), EndTag(tag));
  }

  lemma {:induction false} MarkupListAgrees(cs: seq<Node>)
    requires forall i :: 0 <= i < |cs| ==> !HasSu(cs[i])
    ensures MarkupList(cs) == SerializeList(RenderList(cs, SafariExtension))
    decreases cs, 0
  {
    if cs != [] {
      MarkupAgrees(cs[0]);
      MarkupListAgrees(cs[1..]);
    }
  }

  lemma {:induction false} SerializeListAppend(a: seq<MathML>, b: seq<MathML>)
    ensures SerializeList(a + b) == SerializeList(a) + SerializeList(b)
  {
    if a == [] {
      assert a + b == b;
    } else {
      assert (a + b)[1..] == a[1..] + b;
      SerializeListAppend(a[1..], b);
    }
  }

  /** A stacked script is where the two differ: as written its markup ends with the end
      tag `msupsup`, the intended markup with `msubsup`. */
  lemma StackedScriptTags(n: Node)
    requires n.kind == Su
    ensures Markup(n) != FixedMarkup(n)
  {
    var cs := RenderList(n.children, SafariExtension);
    ElementMarkup("msubsup", cs);
    var a, b := Markup(n), FixedMarkup(n);
    var bad, good := EndTag("msupsup"), EndTag("msubsup");
    assert |bad| == |good| == 10;
    assert bad[5] != good[5];
    assert a[|a| - 10..] == bad;
    assert b[|b| - 10..] == good;
  }

  /** Text goes in verbatim: a `<` operator is written as a bare `<`. */
  lemma TextNotEscaped()
    ensures Markup(Leaf("<")) == "<mo><</mo>"
  {
    var v := "<";
    assert !IsLetterAt(v) && !IsNumericAt(v);
  }

  predicate IsLetterAt(v: string)
    requires |v| == 1
  {
    Chars.IsLetter(v[0])
  }

  predicate IsNumericAt(v: string)
    requires |v| == 1
  {
    Chars.IsNumeric(v[0])
  }

  const MathStart: string := "<math xmlns='http://www.w3.org/1998/Math/MathML'>"
  const MathEnd: string := "</math>"

  /** `GetMathMLFromElement` of the Safari extension: the markup of the processed tree,
      inside a script-style `mstyle` when the class attribute contains `mathcal`, inside a
      `math` element. A text node has no class attribute, and reading its `includes`
      throws. */
  function GetMathMLFromElement(f: Fragment): (r: Outcome<string>)
    ensures r.Ok? <==> f.Element? && Build(f, SafariExtension).Ok?
    ensures r.Ok? ==> (|r.value| >= |MathStart| + |MathEnd|
      && r.value[..|MathStart|] == MathStart && r.value[|r.value| - |MathEnd|..] == MathEnd)
  {
    match Build(f, SafariExtension)
    case Ok(tree) =>
      if f.TextRun? then Throws
      else
        var body := MarkupBody(f.className, tree);
        Enclosed(MathStart, body, MathEnd);
        Ok(MathStart + body + MathEnd)
    case _ => Throws
  }

  /** The markup between the root tags. */
  function MarkupBody(className: string, tree: Node): string
  {
    var mathml := FixedMarkup(PostProcess(tree));
    if Includes(className, "mathcal") then "<mstyle mathvariant=script>" + mathml + EndTag("mstyle") else mathml
  }

  lemma Enclosed(start: string, body: string, end: string)
    ensures var s := start + body + end;
      |s| >= |start| + |end| && s[..|start|] == start && s[|s| - |end|..] == end
  {
    var s := start + body + end;
    assert s == start + (body + end);
  }

  lemma ScriptStyleTag()
    ensures StartTag("mstyle", [("mathvariant", "script")]) == "<mstyle mathvariant=script>"
  {
    ScriptVariant();
  }

  lemma ScriptVariant()
    ensures AttrsText([("mathvariant", "script")]) == " mathvariant=script"
  {
    assert AttrsText([("mathvariant", "script")]) == " mathvariant=script" + AttrsText([]);
  }

  /** The script-style wrapper written out: its start tag, the content, its end tag. */
  lemma ScriptStyleMarkup(m: MathML)
    ensures Serialize(MElement("mstyle", [("mathvariant", "script")], [m]))
      == "<mstyle mathvariant=script>" + Serialize(m) + EndTag("mstyle")
  {
    ScriptStyleTag();
    assert SerializeList([m]) == Serialize(m) + SerializeList([]);
  }

  /** The Safari extension's body is the markup of the content script's body, text tags
      aside. */
  lemma MarkupBodyIsBody(className: string, tree: Node)
    ensures MarkupBody(className, tree) == Serialize(Body(className, tree, SafariExtension))
  {
    if Includes(className, "mathcal") {
      ScriptStyleMarkup(ToMathML(PostProcess(tree), SafariExtension));
    }
  }

  /** Between its root tags, the Safari extension's output is the markup of the MathML body
      the content script builds, text tags aside. */
  lemma SafariBodyIsContentBody(f: Fragment)
    requires GetMathMLFromElement(f).Ok?
    ensures GetMathMLFromElement(f).value == MathStart + Serialize(Body(f.className, Build(f, SafariExtension).value, SafariExtension)) + MathEnd
  {
    MarkupBodyIsBody(f.className, Build(f, SafariExtension).value);
  }
}
