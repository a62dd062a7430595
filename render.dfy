/** `TreeToMathML` and `GetMathMLFromElement` of the content script: the expression tree
    rendered as MathML presentation markup, modelled as a tree of elements and text. */
module Render {
  import opened Wrappers
  import opened Strings
  import opened Chars
  import opened Fragments
  import opened ExprTree
  import opened Templates
  import opened Builder
  import opened Scripts
  import opened PostProcessing

  /** An element with its tag, its attributes in order and its child nodes, or a text node. */
  datatype MathML = MElement(tag: string, attrs: seq<(string, string)>, children: seq<MathML>) | MText(data: string)

  const MathMLNamespace: string := "http://www.w3.org/1998/Math/MathML"

  /** A token element holding one text node. */
  function Token(tag: string, text: string): MathML
  {
    MElement(tag, [], [MText(text)])
  }

  /** The token element a `text` node becomes: `mi` when it holds a letter; otherwise `mn`
      when it holds a digit, comma or point (in the content script, not when it is a lone
      comma or point); otherwise `mo`. */
  function TextTag(v: string, rev: Revision): (r: string)
    ensures r == "mi" || r == "mn" || r == "mo"
    ensures r == "mi" <==> HasLetter(v)
  {
    if HasLetter(v) then "mi"
    else if (rev != ContentScript || !(|v| == 1 && IsSeparator(v[0]))) && HasNumeric(v) then "mn"
    else "mo"
  }

  predicate IsSeparator(c: char)
  {
    c == ',' || c == '.'
  }

  /** `TreeToMathML`, rendering text nodes as the revision does. */
  function ToMathML(n: Node, rev: Revision): (r: MathML)
    ensures r.MElement?
  {
    var cs := RenderList(n.children, rev);
    match n.kind
    case Row => MElement("mrow", [], cs)
    case Sqrt => MElement("msqrt", [], cs)
    case Radic => MElement("mroot", [], cs)
    case Frac => MElement("mfrac", [], cs)
    case Integral => MElement("msubsup", [], [Token("mo", n.value)] + cs)
    case Sub => MElement(if n.value == "2" then "munder" else "msub", [], cs)
    case Sup => MElement(if n.value == "2" then "mover" else "msup", [], cs)
    case Su => MElement("msubsup", [], cs)
    case Fence =>
      var open, close := Token("mo", CharAt(n.value, 0)), Token("mo", CharAt(n.value, 1));
      if |n.children| == 1 then MElement("mrow", [], [open] + cs + [close])
      else MElement("mrow", [], [open, MElement("mrow", [], cs), close])
    case Text => Token(TextTag(n.value, rev), n.value)
  }

  /** `node.children.map(TreeToMathML)` */
  function RenderList(cs: seq<Node>, rev: Revision): (r: seq<MathML>)
    ensures |r| == |cs|
  {
    if cs == [] then [] else [ToMathML(cs[0], rev)] + RenderList(cs[1..], rev)
  }

  /** The text a reader of the rendered markup meets: the text nodes, in document order. */
  function TextOf(m: MathML): string
  {
    match m
    case MText(d) => d
    case MElement(_, _, cs) => TextOfList(cs)
  }

  function TextOfList(cs: seq<MathML>): string
  {
    if cs == [] then "" else TextOf(cs[0]) + TextOfList(cs[1..])
  }

  lemma {:induction false} TextOfListAppend(a: seq<MathML>, b: seq<MathML>)
    ensures TextOfList(a + b) == TextOfList(a) + TextOfList(b)
  {
    if a == [] {
      assert a + b == b;
    } else {
      assert (a + b)[1..] == a[1..] + b;
      TextOfListAppend(a[1..], b);
    }
  }

  lemma TokenText(tag: string, text: string)
    ensures TextOf(Token(tag, text)) == text
    ensures TextOfList([Token(tag, text)]) == text
  {
    assert TextOfList([MText(text)]) == text + TextOfList([]);
    assert TextOfList([Token(tag, text)]) == TextOf(Token(tag, text)) + TextOfList([]);
  }

  /** The rendered markup holds exactly the text the tree reads as: every value, every
      fence delimiter and every integral sign, in order, and nothing else. */
  lemma {:induction false} RenderedText(n: Node, rev: Revision)
    ensures TextOf(ToMathML(n, rev)) == Reading(n)
    decreases n, 1
  {
    RenderedListText(n.children, rev);
    if n.kind == Integral {
      IntegralText(n, rev);
    } else if n.kind == Fence {
      FenceText(n, rev);
    } else if n.kind == Text {
      TokenText(TextTag(n.value, rev), n.value);
    }
  }

  lemma IntegralText(n: Node, rev: Revision)
    requires n.kind == Integral
    requires TextOfList(RenderList(n.children, rev)) == ReadingList(n.children)
    ensures TextOf(ToMathML(n, rev)) == Reading(n)
  {
    var cs := RenderList(n.children, rev);
    TextOfListAppend([Token("mo", n.value)], cs);
    TokenText("mo", n.value);
  }

  lemma FenceText(n: Node, rev: Revision)
    requires n.kind == Fence
    requires TextOfList(RenderList(n.children, rev)) == ReadingList(n.children)
    ensures TextOf(ToMathML(n, rev)) == Reading(n)
  {
    var cs := RenderList(n.children, rev);
    var open, close := Token("mo", CharAt(n.value, 0)), Token("mo", CharAt(n.value, 1));
    TokenText("mo", CharAt(n.value, 0));
    TokenText("mo", CharAt(n.value, 1));
    if |n.children| == 1 {
      TextOfListAppend([open] + cs, [close]);
      TextOfListAppend([open], cs);
    } else {
      assert TextOfList([open, MElement("mrow", [], cs), close])
        == TextOf(open) + (TextOf(MElement("mrow", [], cs)) + (TextOf(close) + TextOfList([])));
    }
  }

  lemma {:induction false} RenderedListText(cs: seq<Node>, rev: Revision)
    ensures TextOfList(RenderList(cs, rev)) == ReadingList(cs)
    decreases cs, 0
  {
    if cs != [] {
      RenderedText(cs[0], rev);
      RenderedListText(cs[1..], rev);
    }
  }

  /** Every `msub`, `msup`, `munder` and `mover` element has exactly a base and a script,
      as MathML requires. */
  predicate ScriptArity(m: MathML)
  {
    match m
    case MText(_) => true
    case MElement(tag, _, cs) =>
      (tag in ["msub", "msup", "munder", "mover"] ==> |cs| == 2)
      && forall i :: 0 <= i < |cs| ==> ScriptArity(cs[i])
  }

  lemma {:induction false} CompleteScriptsRender(n: Node, rev: Revision)
    requires ScriptsExact(n)
    ensures ScriptArity(ToMathML(n, rev))
    decreases n, 1
  {
    CompleteScriptsRenderList(n.children, rev);
    if n.kind == Integral || n.kind == Fence {
      WrappedArity(n, rev);
    } else if n.kind == Text {
      assert ScriptArity(MText(n.value));
    }
  }

  lemma WrappedArity(n: Node, rev: Revision)
    requires n.kind == Integral || n.kind == Fence
    requires forall i :: 0 <= i < |n.children| ==> ScriptArity(RenderList(n.children, rev)[i])
    ensures ScriptArity(ToMathML(n, rev))
  {
    var cs := RenderList(n.children, rev);
    var open, close := Token("mo", if n.kind == Fence then CharAt(n.value, 0) else n.value), Token("mo", CharAt(n.value, 1));
    assert ScriptArity(open) && ScriptArity(close);
    assert forall i :: 1 <= i < 1 + |cs| ==> ([open] + cs)[i] == cs[i - 1];
    assert forall i :: 1 <= i < 1 + |cs| ==> ([open] + cs + [close])[i] == cs[i - 1];
  }

  lemma {:induction false} CompleteScriptsRenderList(cs: seq<Node>, rev: Revision)
    requires forall i :: 0 <= i < |cs| ==> ScriptsExact(cs[i])
    ensures forall i :: 0 <= i < |cs| ==> ScriptArity(RenderList(cs, rev)[i])
    decreases cs, 0
  {
    if cs != [] {
      CompleteScriptsRender(cs[0], rev);
      CompleteScriptsRenderList(cs[1..], rev);
      assert forall i :: 1 <= i < |cs| ==> RenderList(cs, rev)[i] == RenderList(cs[1..], rev)[i - 1];
    }
  }

  /** The revisions render a lone point differently: the content script as an operator,
      the Safari extension as a number. */
  lemma LonePointTag()
    ensures TextTag(".", ContentScript) == "mo"
    ensures TextTag(".", SafariExtension) == "mn"
    ensures TextTag("3.5", ContentScript) == "mn"
  {
    assert !IsLetter('.') && IsNumeric('.');
    var v := "3.5";
    assert !IsLetter(v[0]) && !IsLetter(v[1]) && !IsLetter(v[2]) && IsNumeric(v[0]);
  }

  /** The body of the `math` element: the rendered tree, inside a script-style `mstyle`
      when the element's class attribute contains `mathcal`. */
  function Body(className: string, tree: Node, rev: Revision): MathML
  {
    var mathml := ToMathML(PostProcess(tree), rev);
    if Includes(className, "mathcal") then MElement("mstyle", [("mathvariant", "script")], [mathml]) else mathml
  }

  /** `GetMathMLFromElement` of the content script. A text node has no class attribute,
      and reading its `includes` throws. */
  function GetMathMLFromElement(f: Fragment): (r: Outcome<MathML>)
    ensures r.Ok? <==> f.Element? && Build(f, ContentScript).Ok?
    ensures r.Ok? ==> (r.value.MElement? && r.value.tag == "math" && |r.value.children| == 1
      && r.value.attrs == [("xmlns", MathMLNamespace), ("role", "math")])
  {
    match Build(f, ContentScript)
    case Ok(tree) =>
      if f.TextRun? then Throws
      else Ok(MElement("math", [("xmlns", MathMLNamespace), ("role", "math")], [Body(f.className, tree, ContentScript)]))
    case _ => Throws
  }

  /** The markup holds exactly the text the built tree reads as, and every script in it has
      exactly its base and its script. */
  lemma MathMLFromElement(f: Fragment)
    requires GetMathMLFromElement(f).Ok?
    ensures TextOf(GetMathMLFromElement(f).value) == Reading(Build(f, ContentScript).value)
    ensures ScriptArity(GetMathMLFromElement(f).value)
  {
    var tree := Build(f, ContentScript).value;
    BuildShaped(f, ContentScript);
    BodyText(f.className, tree);
    var body := Body(f.className, tree, ContentScript);
    assert TextOfList([body]) == TextOf(body) + TextOfList([]);
  }

  /** The body of a built tree holds the text the tree reads as, and its scripts have
      exactly a base and a script. */
  lemma BodyText(className: string, tree: Node)
    requires Shaped(tree, ContentScript)
    ensures TextOf(Body(className, tree, ContentScript)) == Reading(tree)
    ensures ScriptArity(Body(className, tree, ContentScript))
  {
    var p := PostProcess(tree);
    PostProcessReading(tree);
    RenderedText(p, ContentScript);
    BuiltScriptsExact(tree, ContentScript);
    CompleteScriptsRender(p, ContentScript);
    if Includes(className, "mathcal") {
      assert TextOfList([ToMathML(p, ContentScript)]) == TextOf(ToMathML(p, ContentScript)) + TextOfList([]);
    }
  }

  /** A number is a numeral, a letter an identifier, a sign an operator. */
  lemma TokenTags()
    ensures TextTag("42", ContentScript) == "mn"
    ensures TextTag("x", ContentScript) == "mi"
    ensures TextTag("+", ContentScript) == "mo"
  {
    assert IsLetter("x"[0]);
    assert !IsLetter('4') && !IsLetter('2') && IsNumeric("42"[0]);
    assert !IsLetter('+') && !IsNumeric('+');
  }
}
