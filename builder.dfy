/** `GetTreeFromElement` and the template builders: the expression tree built from a
    markup fragment. A builder that reads a child the fragment does not have passes
    `undefined` on, and the next property read throws; such a build ends in `Throws`. */
module Builder {
  import opened Wrappers
  import opened Strings
  import opened Chars
  import opened Fragments
  import opened ExprTree
  import opened Tokenizer
  import opened Templates

  /** The regular expression a revision tokenizes text with. */
  function LexiconOf(rev: Revision): Lexicon
  {
    if rev == InlineUserScript then Ascii else Wiki
  }

  /** `new Node(kind, value, [children...])` once every child has been built. */
  function Wrap(kind: Kind, value: string, rs: seq<Outcome<Node>>): (r: Outcome<Node>)
    ensures r.Ok? <==> forall i :: 0 <= i < |rs| ==> rs[i].Ok?
    ensures !r.Diverges?
    ensures r.Ok? ==>
      r.value.kind == kind && r.value.value == value && |r.value.children| == |rs|
      && (forall i :: 0 <= i < |rs| ==> r.value.children[i] == rs[i].value)
  {
    match Collect(rs)
    case Ok(ns) => Ok(Node(kind, value, ns))
    case _ => Throws
  }

  lemma WrapTwo(kind: Kind, value: string, a: Outcome<Node>, b: Outcome<Node>)
    ensures Wrap(kind, value, [a, b]).Ok? <==> a.Ok? && b.Ok?
    ensures a.Ok? && b.Ok? ==> Wrap(kind, value, [a, b]).value == Node(kind, value, [a.value, b.value])
  {
    var rs := [a, b];
    assert rs[0] == a && rs[1] == b;
  }

  lemma WrapThree(kind: Kind, value: string, a: Outcome<Node>, b: Outcome<Node>, c: Outcome<Node>)
    ensures Wrap(kind, value, [a, b, c]).Ok? <==> a.Ok? && b.Ok? && c.Ok?
    ensures a.Ok? && b.Ok? && c.Ok? ==> Wrap(kind, value, [a, b, c]).value == Node(kind, value, [a.value, b.value, c.value])
  {
    var rs := [a, b, c];
    assert rs[0] == a && rs[1] == b && rs[2] == c;
  }

  /** `CreateRowNode` and the limits of an integral: a single node stands alone, any other
      number of nodes forms a row. */
  function Group(rs: seq<Outcome<Node>>): (r: Outcome<Node>)
    ensures r.Ok? <==> forall i :: 0 <= i < |rs| ==> rs[i].Ok?
    ensures (forall i :: 0 <= i < |rs| ==> !rs[i].Diverges?) ==> !r.Diverges?
  {
    if |rs| == 1 then rs[0] else Wrap(Row, "", rs)
  }

  /** The position of the first `<br>` among the nodes of an integral's limits, or the
      number of nodes when there is none. */
  function FirstBreak(cs: seq<Fragment>): (k: nat)
    ensures k <= |cs|
    ensures forall j :: 0 <= j < k ==> NodeName(cs[j]) != "BR"
    ensures k < |cs| ==> NodeName(cs[k]) == "BR"
  {
    if cs == [] then 0
    else if NodeName(cs[0]) == "BR" then 0
    else 1 + FirstBreak(cs[1..])
  }

  /** The search loop of `GetTreeFromIntegralTemplate`. */
  method FindBreak(cs: seq<Fragment>) returns (k: nat)
    ensures k == FirstBreak(cs)
  {
    k := |cs|;
    var i := 0;
    while i < |cs|
      invariant 0 <= i <= |cs|
      invariant forall j :: 0 <= j < i ==> NodeName(cs[j]) != "BR"
    {
      if NodeName(cs[i]) == "BR" {
        k := i;
        FirstBreakIs(cs, i);
        return;
      }
      i := i + 1;
    }
    FirstBreakIs(cs, |cs|);
  }

  lemma {:induction false} FirstBreakIs(cs: seq<Fragment>, k: nat)
    requires k <= |cs|
    requires forall j :: 0 <= j < k ==> NodeName(cs[j]) != "BR"
    requires k < |cs| ==> NodeName(cs[k]) == "BR"
    ensures FirstBreak(cs) == k
  {
    if k > 0 {
      FirstBreakIs(cs[1..], k - 1);
    }
  }

  /** The opening delimiter drawn by a piece glyph: an upper left bracket corner, a light
      or a double vertical bar; anything else is a parenthesis. */
  function LeftFence(glyph: string): (r: string)
    ensures |r| == 1
  {
    if glyph == "\U{23A1}" then "["
    else if glyph == "\U{2502}" then "|"
    else if glyph == "\U{2551}" then "\U{2016}"
    else "("
  }

  function RightFence(glyph: string): (r: string)
    ensures |r| == 1
  {
    if glyph == "\U{23A4}" then "]"
    else if glyph == "\U{2502}" then "|"
    else if glyph == "\U{2551}" then "\U{2016}"
    else ")"
  }

  /** The character data three first children below a delimiter piece (an element there has
      no data, which matches no glyph); a missing node on the way throws. */
  function PieceGlyph(g: Fragment): Outcome<string>
  {
    if Kids(g) == [] || Kids(Kids(g)[0]) == [] || Kids(Kids(Kids(g)[0])[0]) == [] then Throws
    else
      var c := Kids(Kids(Kids(g)[0])[0])[0];
      Ok(if c.TextRun? then c.data else "")
  }

  /** `GetTreeFromElement` of each revision: the dispatch, then the builder of the
      template the node passes. */
  function Build(f: Fragment, rev: Revision): (r: Outcome<Node>)
    ensures !r.Diverges?
    decreases f, 3
  {
    match Classify(f, rev)
    case HiddenSpan => Ok(EmptyRow)
    case UnknownElement => Ok(EmptyRow)
    case SqrtTemplate => SqrtTree(f, rev)
    case RadicTemplate => RadicTree(f, rev)
    case FractionTemplate => FractionTree(f, rev)
    case FractionTemplate2 => Fraction2Tree(f, rev)
    case DelimTemplate => DelimTree(f, rev)
    case IntegralTemplate => IntegralTree(f, rev)
    case SubTemplate => ScriptTree(f, Sub, "", rev)
    case SupTemplate => ScriptTree(f, Sup, "", rev)
    case SuTemplate => SuTree(f, rev)
    case OverTemplate => ScriptTree(f, Sup, "2", rev)
    case UnderTemplate => ScriptTree(f, Sub, "2", rev)
    case VariableTemplate => VariableTree(f)
    case Container => RowTree(f, rev)
    case TextLeaf => Ok(TextTree(TextContent(f), LexiconOf(rev)))
  }

  /** `CreateRowNode`: the only child's tree, or a row of the children's trees. */
  function RowTree(f: Fragment, rev: Revision): (r: Outcome<Node>)
    requires f.Element?
    ensures !r.Diverges?
    decreases f, 0
  {
    Group(seq(|f.children|, i requires 0 <= i < |f.children| => Build(f.children[i], rev)))
  }

  /** `GetTreeFromSqrtElement`: the radicand follows the radical sign. */
  function SqrtTree(f: Fragment, rev: Revision): (r: Outcome<Node>)
    requires IsSqrt(f)
    ensures !r.Diverges?
    decreases f, 0
  {
    Wrap(Sqrt, "", [Build(f.children[1], rev)])
  }

  /** `GetTreeFromRadicElement`: the index is the first child of the first child, the
      radicand the third child. The content script and the Safari extension put the
      radicand first; the user script puts the index first. */
  function RadicTree(f: Fragment, rev: Revision): (r: Outcome<Node>)
    requires IsRadic(f)
    ensures !r.Diverges?
    decreases f, 0
  {
    var index := if f.children[0].Element? && f.children[0].children != [] then Build(f.children[0].children[0], rev) else Throws;
    if rev == InlineUserScript then Wrap(Radic, "", [index, Build(f.children[2], rev)])
    else Wrap(Radic, "", [Build(f.children[2], rev), index])
  }

  /** `GetTreeFromFractionTemplate`: when the middle child starts with a slash, a fraction
      of the outer children; otherwise a mixed number, the whole part plus the fraction
      stacked in the third child. */
  function FractionTree(f: Fragment, rev: Revision): (r: Outcome<Node>)
    requires f.Element? && |f.children| == 3
    ensures !r.Diverges?
    decreases f, 0
  {
    var mid := f.children[1];
    var low := f.children[2];
    if !(mid.Element? && mid.children != []) then Throws
    else if HasData(mid.children[0], "/") then Wrap(Frac, "", [Build(f.children[0], rev), Build(low, rev)])
    else if !(low.Element? && |low.children| >= 3) then Throws
    else
      var frac := Wrap(Frac, "", [Build(low.children[0], rev), Build(low.children[2], rev)]);
      Wrap(Row, "", [Build(f.children[0], rev), Ok(Leaf("+")), frac])
  }

  /** `GetTreeFromFractionTemplate2`: numerator and denominator are the first children of
      the first and third child. */
  function Fraction2Tree(f: Fragment, rev: Revision): (r: Outcome<Node>)
    requires f.Element? && |f.children| == 3
    ensures !r.Diverges?
    decreases f, 0
  {
    var num := f.children[0];
    var den := f.children[2];
    var top := if num.Element? && num.children != [] then Build(num.children[0], rev) else Throws;
    var bottom := if den.Element? && den.children != [] then Build(den.children[0], rev) else Throws;
    Wrap(Frac, "", [top, bottom])
  }

  /** `GetTreeFromDelimTemplate`: the delimiters are read from the second and the
      second-to-last child, the fenced nodes are the children in between those two. */
  function DelimTree(f: Fragment, rev: Revision): (r: Outcome<Node>)
    requires f.Element? && |f.children| >= 4
    ensures !r.Diverges?
    decreases f, 1
  {
    var cs := f.children;
    var left := PieceGlyph(cs[1]);
    var right := PieceGlyph(cs[|cs| - 2]);
    if left.Ok? && right.Ok? then Wrap(Fence, LeftFence(left.value) + RightFence(right.value), Fenced(f, rev))
    else Throws
  }

  /** The trees of the children between the two delimiter pieces. */
  function Fenced(f: Fragment, rev: Revision): seq<Outcome<Node>>
    requires f.Element? && |f.children| >= 4
    decreases f, 0
  {
    seq(|f.children| - 4, i requires 0 <= i < |f.children| - 4 => Build(f.children[i + 2], rev))
  }

  /** The `for` loop of `GetTreeFromDelimTemplate`: from the child after the opening piece
      up to the child before the closing one, the tree of each child is pushed in turn. */
  method PushFenced(f: Fragment, rev: Revision) returns (children: seq<Outcome<Node>>)
    requires f.Element? && |f.children| >= 4
    ensures |children| == |f.children| - 4
    ensures forall i :: 2 <= i < |f.children| - 2 ==> children[i - 2] == Build(f.children[i], rev)
    ensures children == Fenced(f, rev)
  {
    children := [];
    for i := 2 to |f.children| - 2
      invariant |children| == i - 2
      invariant forall j :: 2 <= j < i ==> children[j - 2] == Build(f.children[j], rev)
    {
      children := children + [Build(f.children[i], rev)];
    }
  }

  /** The upper limit: the limit nodes before the first `<br>`. */
  function UpperLimit(data: seq<Fragment>): seq<Fragment>
  {
    data[..FirstBreak(data)]
  }

  /** The lower limit: the limit nodes after the first `<br>`, none without one. */
  function LowerLimit(data: seq<Fragment>): seq<Fragment>
  {
    var br := FirstBreak(data);
    if br < |data| then data[br + 1..] else []
  }

  /** `GetTreeFromIntegralTemplate`: the sign's character is the node's value, its children
      are the lower and then the upper limit. */
  function IntegralTree(f: Fragment, rev: Revision): (r: Outcome<Node>)
    requires IsIntegral(f)
    ensures !r.Diverges?
    decreases f, 1
  {
    Wrap(Integral, f.children[0].children[0].data, [LowerTree(f, rev), UpperTree(f, rev)])
  }

  /** The upper limit's tree: `CreateRowNode` over the limit nodes before the `<br>`. */
  function UpperTree(f: Fragment, rev: Revision): (r: Outcome<Node>)
    requires IsIntegral(f)
    ensures !r.Diverges?
    decreases f, 0
  {
    var upper := UpperLimit(Kids(f.children[1]));
    Group(seq(|upper|, i requires 0 <= i < |upper| => Build(upper[i], rev)))
  }

  /** The lower limit's tree: `CreateRowNode` over the limit nodes after the `<br>`. */
  function LowerTree(f: Fragment, rev: Revision): (r: Outcome<Node>)
    requires IsIntegral(f)
    ensures !r.Diverges?
    decreases f, 0
  {
    var lower := LowerLimit(Kids(f.children[1]));
    Group(seq(|lower|, i requires 0 <= i < |lower| => Build(lower[i], rev)))
  }

  /** `GetTreeFromSubTemplate`, `GetTreeFromSupTemplate`, `GetTreeFromOverTemplate` and
      `GetTreeFromUnderTemplate`: a script node over `CreateRowNode`; the user script's
      sub- and superscripts take each child's tree as a child instead. */
  function ScriptTree(f: Fragment, kind: Kind, value: string, rev: Revision): (r: Outcome<Node>)
    requires f.Element?
    ensures !r.Diverges?
    decreases f, 0
  {
    var each := seq(|f.children|, i requires 0 <= i < |f.children| => Build(f.children[i], rev));
    if rev == InlineUserScript then Wrap(kind, value, each) else Wrap(kind, value, [Group(each)])
  }

  /** `GetTreeFromSuTemplate`: the third child (the subscript) and then the first (the
      superscript). */
  function SuTree(f: Fragment, rev: Revision): (r: Outcome<Node>)
    requires f.Element?
    ensures !r.Diverges?
    decreases f, 0
  {
    if |f.children| < 3 then Throws else Wrap(Su, "", [Build(f.children[2], rev), Build(f.children[0], rev)])
  }

  /** `GetTreeFromVariableTemplate`: a one-character name is a text node, a longer one a
      row of its characters. */
  function VariableTree(f: Fragment): (r: Outcome<Node>)
    requires IsVariable(f)
    ensures r.Ok?
  {
    var d := f.children[0].data;
    Ok(if |d| == 1 then Leaf(d) else Node(Row, "", seq(|d|, i requires 0 <= i < |d| => Leaf([d[i]]))))
  }

  /** The shape every tree the builders return has, which the later passes rely on: text
      nodes are non-empty leaves, a square root has one child, a root, a fraction and an
      integral two, a stacked script two, a fence two delimiter characters; in the
      Wikipedia revisions every sub- and superscript has exactly one child, its base being
      attached later. */
  predicate Shaped(n: Node, rev: Revision)
  {
    (match n.kind
     case Text => n.children == [] && n.value != ""
     case Sqrt => |n.children| == 1
     case Radic => |n.children| == 2
     case Frac => |n.children| == 2
     case Integral => |n.children| == 2
     case Sub => rev == InlineUserScript || |n.children| == 1
     case Sup => rev == InlineUserScript || |n.children| == 1
     case Su => |n.children| == 2
     case Fence => |n.value| == 2
     case Row => true)
    && forall i :: 0 <= i < |n.children| ==> Shaped(n.children[i], rev)
  }

  /** Whether a build that succeeds has the built shape. */
  predicate ShapedIfOk(r: Outcome<Node>, rev: Revision)
  {
    r.Ok? ==> Shaped(r.value, rev)
  }

  lemma GroupShaped(rs: seq<Outcome<Node>>, rev: Revision)
    requires forall i :: 0 <= i < |rs| ==> ShapedIfOk(rs[i], rev)
    ensures ShapedIfOk(Group(rs), rev)
  {
  }

  lemma TokenNodeShaped(t: string, rev: Revision)
    requires t != ""
    ensures Shaped(TokenNode(t, LexiconOf(rev)), rev)
  {
    var r := TokenNode(t, LexiconOf(rev));
    if r.kind == Sup {
      assert r.children == [Leaf(t)];
    }
  }

  lemma TextTreeShaped(text: string, rev: Revision)
    ensures Shaped(TextTree(text, LexiconOf(rev)), rev)
  {
    var lex := LexiconOf(rev);
    var ts := Tokens(text, lex);
    TokensNonEmpty(text, lex);
    var ns := TokenNodes(ts, lex);
    forall i | 0 <= i < |ns|
      ensures Shaped(ns[i], rev)
    {
      TokenNodeShaped(ts[i], rev);
    }
  }

  /** Every tree the builders return has the built shape. */
  lemma {:induction false} BuildShaped(f: Fragment, rev: Revision)
    ensures ShapedIfOk(Build(f, rev), rev)
    decreases f, 4
  {
    match Classify(f, rev)
    case HiddenSpan =>
    case UnknownElement =>
    case SqrtTemplate => SqrtShaped(f, rev);
    case RadicTemplate => RadicShaped(f, rev);
    case FractionTemplate => FractionShaped(f, rev);
    case FractionTemplate2 => Fraction2Shaped(f, rev);
    case DelimTemplate => DelimShaped(f, rev);
    case IntegralTemplate => IntegralShaped(f, rev);
    case SubTemplate => ScriptShaped(f, Sub, "", rev);
    case SupTemplate => ScriptShaped(f, Sup, "", rev);
    case SuTemplate => SuShaped(f, rev);
    case OverTemplate => ScriptShaped(f, Sup, "2", rev);
    case UnderTemplate => ScriptShaped(f, Sub, "2", rev);
    case VariableTemplate => VariableShaped(f, rev);
    case Container => RowShaped(f, rev);
    case TextLeaf => TextTreeShaped(TextContent(f), rev);
  }

  lemma {:induction false} SqrtShaped(f: Fragment, rev: Revision)
    requires IsSqrt(f)
    ensures ShapedIfOk(SqrtTree(f, rev), rev)
    decreases f, 1
  {
    BuildShaped(f.children[1], rev);
  }

  lemma {:induction false} RowShaped(f: Fragment, rev: Revision)
    requires f.Element?
    ensures ShapedIfOk(RowTree(f, rev), rev)
    decreases f, 1
  {
    ChildrenShaped(f, rev);
    PartShaped(f.children, rev);
  }

  lemma {:induction false} ScriptShaped(f: Fragment, kind: Kind, value: string, rev: Revision)
    requires f.Element? && (kind == Sub || kind == Sup)
    ensures ShapedIfOk(ScriptTree(f, kind, value, rev), rev)
    decreases f, 1
  {
    ChildrenShaped(f, rev);
    PartShaped(f.children, rev);
  }

  lemma {:induction false} SuShaped(f: Fragment, rev: Revision)
    requires f.Element?
    ensures ShapedIfOk(SuTree(f, rev), rev)
    decreases f, 1
  {
    if |f.children| >= 3 {
      BuildShaped(f.children[0], rev);
      BuildShaped(f.children[2], rev);
    }
  }

  lemma {:induction false} DelimShaped(f: Fragment, rev: Revision)
    requires f.Element? && |f.children| >= 4
    ensures ShapedIfOk(DelimTree(f, rev), rev)
    decreases f, 2
  {
    FencedShaped(f, rev);
    var cs := f.children;
    var left, right := PieceGlyph(cs[1]), PieceGlyph(cs[|cs| - 2]);
    if left.Ok? && right.Ok? {
      FencePair(left.value, right.value);
      FenceShaped(LeftFence(left.value) + RightFence(right.value), Fenced(f, rev), rev);
    }
  }

  /** A fence with two delimiter characters around shaped trees is shaped. */
  lemma FenceShaped(v: string, rs: seq<Outcome<Node>>, rev: Revision)
    requires |v| == 2
    requires forall i :: 0 <= i < |rs| ==> ShapedIfOk(rs[i], rev)
    ensures ShapedIfOk(Wrap(Fence, v, rs), rev)
  {
  }

  lemma {:induction false} FencedShaped(f: Fragment, rev: Revision)
    requires f.Element? && |f.children| >= 4
    ensures forall i :: 0 <= i < |Fenced(f, rev)| ==> ShapedIfOk(Fenced(f, rev)[i], rev)
    decreases f, 1
  {
    var rs := Fenced(f, rev);
    forall i | 0 <= i < |rs|
      ensures ShapedIfOk(rs[i], rev)
    {
      BuildShaped(f.children[i + 2], rev);
    }
  }

  lemma VariableShaped(f: Fragment, rev: Revision)
    requires IsVariable(f)
    ensures ShapedIfOk(VariableTree(f), rev)
  {
  }

  lemma {:induction false} RadicShaped(f: Fragment, rev: Revision)
    requires IsRadic(f)
    ensures ShapedIfOk(RadicTree(f, rev), rev)
    decreases f, 1
  {
    BuildShaped(f.children[2], rev);
    if f.children[0].Element? && f.children[0].children != [] {
      BuildShaped(f.children[0].children[0], rev);
    }
  }

  lemma {:induction false} FractionShaped(f: Fragment, rev: Revision)
    requires f.Element? && |f.children| == 3
    ensures ShapedIfOk(FractionTree(f, rev), rev)
    decreases f, 2
  {
    var mid := f.children[1];
    var low := f.children[2];
    if mid.Element? && mid.children != [] {
      if HasData(mid.children[0], "/") {
        SlashedShaped(f, rev);
      } else if low.Element? && |low.children| >= 3 {
        MixedShaped(f, rev);
      }
    }
  }

  lemma {:induction false} SlashedShaped(f: Fragment, rev: Revision)
    requires f.Element? && |f.children| == 3
    requires f.children[1].Element? && f.children[1].children != [] && HasData(f.children[1].children[0], "/")
    ensures ShapedIfOk(FractionTree(f, rev), rev)
    decreases f, 1
  {
    BuildShaped(f.children[0], rev);
    BuildShaped(f.children[2], rev);
    WrapTwo(Frac, "", Build(f.children[0], rev), Build(f.children[2], rev));
  }

  lemma {:induction false} MixedShaped(f: Fragment, rev: Revision)
    requires f.Element? && |f.children| == 3
    requires f.children[1].Element? && f.children[1].children != [] && !HasData(f.children[1].children[0], "/")
    requires f.children[2].Element? && |f.children[2].children| >= 3
    ensures ShapedIfOk(FractionTree(f, rev), rev)
    decreases f, 1
  {
    var low := f.children[2];
    BuildShaped(f.children[0], rev);
    StackedShaped(f, rev);
    var frac := Wrap(Frac, "", [Build(low.children[0], rev), Build(low.children[2], rev)]);
    WrapThree(Row, "", Build(f.children[0], rev), Ok(Leaf("+")), frac);
  }

  lemma {:induction false} StackedShaped(f: Fragment, rev: Revision)
    requires f.Element? && |f.children| == 3
    requires f.children[2].Element? && |f.children[2].children| >= 3
    ensures ShapedIfOk(Wrap(Frac, "", [Build(f.children[2].children[0], rev), Build(f.children[2].children[2], rev)]), rev)
    decreases f, 0
  {
    BuildShaped(f.children[2].children[0], rev);
    BuildShaped(f.children[2].children[2], rev);
  }

  lemma {:induction false} Fraction2Shaped(f: Fragment, rev: Revision)
    requires f.Element? && |f.children| == 3
    ensures ShapedIfOk(Fraction2Tree(f, rev), rev)
    decreases f, 1
  {
    var num := f.children[0];
    var den := f.children[2];
    if num.Element? && num.children != [] {
      BuildShaped(num.children[0], rev);
    }
    if den.Element? && den.children != [] {
      BuildShaped(den.children[0], rev);
    }
  }

  lemma {:induction false} IntegralShaped(f: Fragment, rev: Revision)
    requires IsIntegral(f)
    ensures ShapedIfOk(IntegralTree(f, rev), rev)
    decreases f, 2
  {
    UpperShaped(f, rev);
    LowerShaped(f, rev);
    WrapTwo(Integral, f.children[0].children[0].data, LowerTree(f, rev), UpperTree(f, rev));
  }

  lemma {:induction false} UpperShaped(f: Fragment, rev: Revision)
    requires IsIntegral(f)
    ensures ShapedIfOk(UpperTree(f, rev), rev)
    decreases f, 1
  {
    var data := Kids(f.children[1]);
    var upper := UpperLimit(data);
    forall i | 0 <= i < |upper|
      ensures ShapedIfOk(Build(upper[i], rev), rev)
    {
      assert upper[i] == data[i];
      BuildShaped(upper[i], rev);
    }
    PartShaped(upper, rev);
  }

  lemma {:induction false} LowerShaped(f: Fragment, rev: Revision)
    requires IsIntegral(f)
    ensures ShapedIfOk(LowerTree(f, rev), rev)
    decreases f, 1
  {
    var data := Kids(f.children[1]);
    var lower := LowerLimit(data);
    forall i | 0 <= i < |lower|
      ensures ShapedIfOk(Build(lower[i], rev), rev)
    {
      assert lower[i] == data[FirstBreak(data) + 1 + i];
      BuildShaped(lower[i], rev);
    }
    PartShaped(lower, rev);
  }

  /** `CreateRowNode` of no nodes is an empty row, of one node that node, of several a
      row of them. */
  lemma GroupShape(rs: seq<Outcome<Node>>)
    ensures |rs| == 0 ==> Group(rs) == Ok(EmptyRow)
    ensures |rs| == 1 ==> Group(rs) == rs[0]
    ensures |rs| > 1 && Group(rs).Ok? ==> Group(rs).value.kind == Row && |Group(rs).value.children| == |rs|
  {
  }

  /** A limit whose nodes build to shaped trees groups to a shaped tree. */
  lemma PartShaped(part: seq<Fragment>, rev: Revision)
    requires forall i :: 0 <= i < |part| ==> ShapedIfOk(Build(part[i], rev), rev)
    ensures ShapedIfOk(Group(seq(|part|, i requires 0 <= i < |part| => Build(part[i], rev))), rev)
  {
    GroupShaped(seq(|part|, i requires 0 <= i < |part| => Build(part[i], rev)), rev);
  }

  lemma {:induction false} ChildrenShaped(f: Fragment, rev: Revision)
    requires f.Element?
    ensures forall i :: 0 <= i < |f.children| ==> ShapedIfOk(Build(f.children[i], rev), rev)
    decreases f, 0
  {
    forall i | 0 <= i < |f.children|
      ensures ShapedIfOk(Build(f.children[i], rev), rev)
    {
      BuildShaped(f.children[i], rev);
    }
  }

  /** The hidden span, and in the content script any element that is not a span and passes
      no template, build an empty row whatever their content. The Safari extension has no
      such skip: an element with children becomes the row of its children's trees. */
  lemma SkippedElements(f: Fragment)
    requires f.Element? && f.name != "SPAN" && f.name != "SUB" && f.name != "SUP" && f.name != "I"
    requires !HasClass(f, "sfrac") && f.className != "sfrac nowrap;"
    ensures Build(f, ContentScript) == Ok(EmptyRow)
    ensures f.children != [] ==> Build(f, SafariExtension) == RowTree(f, SafariExtension)
    ensures f.children == [] ==> Build(f, SafariExtension) == Ok(TextTree(TextContent(f), Wiki))
  {
  }

  /** A `display:none` span is an empty row in both Wikipedia revisions. */
  lemma HiddenSpanIsEmpty(f: Fragment, rev: Revision)
    requires IsHidden(f) && rev != InlineUserScript
    ensures Build(f, rev) == Ok(EmptyRow)
  {
  }

  /** A span with children that passes no template is its only child's tree, or the row of
      all its children's trees, in order. */
  lemma ContainerShape(f: Fragment, rev: Revision)
    requires Classify(f, rev) == Container && Build(f, rev).Ok?
    ensures f.Element?
    ensures |f.children| == 1 ==> Build(f, rev) == Build(f.children[0], rev)
    ensures |f.children| != 1 ==>
      var r := Build(f, rev).value;
      r.kind == Row && |r.children| == |f.children|
      && forall i :: 0 <= i < |f.children| ==> Build(f.children[i], rev) == Ok(r.children[i])
  {
    var rs := seq(|f.children|, i requires 0 <= i < |f.children| => Build(f.children[i], rev));
    assert Build(f, rev) == Group(rs);
  }

  /** A square root holds the tree of the node after the radical sign. */
  lemma SqrtShape(f: Fragment, rev: Revision)
    requires Classify(f, rev) == SqrtTemplate && Build(f, rev).Ok?
    ensures Build(f.children[1], rev).Ok?
    ensures Build(f, rev).value == Node(Sqrt, "", [Build(f.children[1], rev).value])
  {
  }

  /** A root holds radicand then index (MathML's `mroot` order) in the Wikipedia
      revisions, index then radicand in the user script. */
  lemma RadicShape(f: Fragment, rev: Revision)
    requires Classify(f, rev) == RadicTemplate && Build(f, rev).Ok?
    ensures f.children[0].Element? && f.children[0].children != []
    ensures var index, radicand := Build(f.children[0].children[0], rev), Build(f.children[2], rev);
      index.Ok? && radicand.Ok?
      && Build(f, rev).value == Node(Radic, "",
        if rev == InlineUserScript then [index.value, radicand.value] else [radicand.value, index.value])
  {
    var c0 := f.children[0];
    var index := if c0.Element? && c0.children != [] then Build(c0.children[0], rev) else Throws;
    var radicand := Build(f.children[2], rev);
    assert Build(f, rev) == RadicTree(f, rev);
    if rev == InlineUserScript {
      assert Build(f, rev) == Wrap(Radic, "", [index, radicand]);
      WrapTwo(Radic, "", index, radicand);
    } else {
      assert Build(f, rev) == Wrap(Radic, "", [radicand, index]);
      WrapTwo(Radic, "", radicand, index);
    }
  }

  /** A slashed fraction is the fraction of its outer children; any other middle child
      makes a mixed number: the whole part, a `+` and the fraction stacked in the third
      child. */
  lemma FractionShape(f: Fragment, rev: Revision)
    requires Classify(f, rev) == FractionTemplate && Build(f, rev).Ok?
    ensures f.children[1].Element? && f.children[1].children != []
    ensures Build(f.children[0], rev).Ok?
    ensures HasData(f.children[1].children[0], "/") ==>
      Build(f.children[2], rev).Ok?
      && Build(f, rev).value == Node(Frac, "", [Build(f.children[0], rev).value, Build(f.children[2], rev).value])
    ensures !HasData(f.children[1].children[0], "/") ==>
      var low := f.children[2];
      low.Element? && |low.children| >= 3
      && Build(low.children[0], rev).Ok? && Build(low.children[2], rev).Ok?
      && Build(f, rev).value == Node(Row, "", [Build(f.children[0], rev).value, Leaf("+"),
           Node(Frac, "", [Build(low.children[0], rev).value, Build(low.children[2], rev).value])])
  {
    var mid, low := f.children[1], f.children[2];
    assert Build(f, rev) == FractionTree(f, rev);
    if HasData(mid.children[0], "/") {
      assert Build(f, rev) == Wrap(Frac, "", [Build(f.children[0], rev), Build(low, rev)]);
      WrapTwo(Frac, "", Build(f.children[0], rev), Build(low, rev));
    } else {
      var frac := Wrap(Frac, "", [Build(low.children[0], rev), Build(low.children[2], rev)]);
      assert Build(f, rev) == Wrap(Row, "", [Build(f.children[0], rev), Ok(Leaf("+")), frac]);
      WrapThree(Row, "", Build(f.children[0], rev), Ok(Leaf("+")), frac);
      WrapTwo(Frac, "", Build(low.children[0], rev), Build(low.children[2], rev));
    }
  }

  /** The other fraction layout: the first children of the outer children. */
  lemma Fraction2Shape(f: Fragment, rev: Revision)
    requires Classify(f, rev) == FractionTemplate2 && Build(f, rev).Ok?
    ensures f.children[0].Element? && f.children[0].children != []
    ensures f.children[2].Element? && f.children[2].children != []
    ensures Build(f.children[0].children[0], rev).Ok? && Build(f.children[2].children[0], rev).Ok?
    ensures Build(f, rev).value == Node(Frac, "",
      [Build(f.children[0].children[0], rev).value, Build(f.children[2].children[0], rev).value])
  {
    var num, den := f.children[0], f.children[2];
    var top := if num.Element? && num.children != [] then Build(num.children[0], rev) else Throws;
    var bottom := if den.Element? && den.children != [] then Build(den.children[0], rev) else Throws;
    assert Build(f, rev) == Fraction2Tree(f, rev) == Wrap(Frac, "", [top, bottom]);
    WrapTwo(Frac, "", top, bottom);
  }

  /** An integral always has two children, the lower and then the upper limit: the nodes
      after and before the first `<br>`, a single node standing alone, none giving an empty
      row (so without a `<br>` everything is the upper limit). Its value is the sign. */
  lemma IntegralShape(f: Fragment, rev: Revision)
    requires Classify(f, rev) == IntegralTemplate && Build(f, rev).Ok?
    ensures var r := Build(f, rev).value;
      var data := Kids(f.children[1]);
      r.kind == Integral && r.value in IntegralSigns && |r.children| == 2
      && (FirstBreak(data) == |data| ==> r.children[0] == EmptyRow)
      && (|LowerLimit(data)| == 0 ==> r.children[0] == EmptyRow)
      && (|LowerLimit(data)| == 1 ==> Build(LowerLimit(data)[0], rev) == Ok(r.children[0]))
      && (|UpperLimit(data)| == 0 ==> r.children[1] == EmptyRow)
      && (|UpperLimit(data)| == 1 ==> Build(UpperLimit(data)[0], rev) == Ok(r.children[1]))
      && (|UpperLimit(data)| > 1 ==> r.children[1].kind == Row && |r.children[1].children| == |UpperLimit(data)|)
      && (|LowerLimit(data)| > 1 ==> r.children[0].kind == Row && |r.children[0].children| == |LowerLimit(data)|)
  {
    var data := Kids(f.children[1]);
    var upper, lower := UpperLimit(data), LowerLimit(data);
    assert Build(f, rev) == IntegralTree(f, rev);
    WrapTwo(Integral, f.children[0].children[0].data, LowerTree(f, rev), UpperTree(f, rev));
    UpperTreeShape(f, rev);
    LowerTreeShape(f, rev);
    assert FirstBreak(data) == |data| ==> lower == [];
  }

  lemma UpperTreeShape(f: Fragment, rev: Revision)
    requires IsIntegral(f)
    ensures var upper, t := UpperLimit(Kids(f.children[1])), UpperTree(f, rev);
      (|upper| == 0 ==> t == Ok(EmptyRow))
      && (|upper| == 1 ==> t == Build(upper[0], rev))
      && (|upper| > 1 && t.Ok? ==> t.value.kind == Row && |t.value.children| == |upper|)
  {
    var upper := UpperLimit(Kids(f.children[1]));
    GroupShape(seq(|upper|, i requires 0 <= i < |upper| => Build(upper[i], rev)));
  }

  lemma LowerTreeShape(f: Fragment, rev: Revision)
    requires IsIntegral(f)
    ensures var lower, t := LowerLimit(Kids(f.children[1])), LowerTree(f, rev);
      (|lower| == 0 ==> t == Ok(EmptyRow))
      && (|lower| == 1 ==> t == Build(lower[0], rev))
      && (|lower| > 1 && t.Ok? ==> t.value.kind == Row && |t.value.children| == |lower|)
  {
    var lower := LowerLimit(Kids(f.children[1]));
    GroupShape(seq(|lower|, i requires 0 <= i < |lower| => Build(lower[i], rev)));
  }

  /** The fence of the large-delimiter template: two delimiter characters (an open
      bracket, bar or double bar, parenthesis by default, and the matching closer) around
      the trees of the children between the delimiter pieces, in order. */
  lemma DelimShape(f: Fragment, rev: Revision)
    requires Classify(f, rev) == DelimTemplate && Build(f, rev).Ok?
    ensures var r := Build(f, rev).value;
      r.kind == Fence && |r.value| == 2
      && (r.value[0] == '(' || r.value[0] == '[' || r.value[0] == '|' || r.value[0] == '\U{2016}')
      && (r.value[1] == ')' || r.value[1] == ']' || r.value[1] == '|' || r.value[1] == '\U{2016}')
      && |r.children| == |f.children| - 4
      && forall i :: 0 <= i < |r.children| ==> Build(f.children[i + 2], rev) == Ok(r.children[i])
  {
    assert Build(f, rev) == DelimTree(f, rev);
    DelimTreeShape(f, rev);
  }

  lemma DelimTreeShape(f: Fragment, rev: Revision)
    requires f.Element? && |f.children| >= 4 && DelimTree(f, rev).Ok?
    ensures var r := DelimTree(f, rev).value;
      r.kind == Fence && |r.value| == 2
      && (r.value[0] == '(' || r.value[0] == '[' || r.value[0] == '|' || r.value[0] == '\U{2016}')
      && (r.value[1] == ')' || r.value[1] == ']' || r.value[1] == '|' || r.value[1] == '\U{2016}')
      && |r.children| == |f.children| - 4
      && forall i :: 0 <= i < |r.children| ==> Build(f.children[i + 2], rev) == Ok(r.children[i])
  {
    var cs := f.children;
    var l, rt := PieceGlyph(cs[1]), PieceGlyph(cs[|cs| - 2]);
    FencePair(l.value, rt.value);
  }

  /** The two delimiter characters drawn from a pair of piece glyphs. */
  lemma FencePair(left: string, right: string)
    ensures var v := LeftFence(left) + RightFence(right);
      |v| == 2
      && (v[0] == '(' || v[0] == '[' || v[0] == '|' || v[0] == '\U{2016}')
      && (v[1] == ')' || v[1] == ']' || v[1] == '|' || v[1] == '\U{2016}')
  {
    var v := LeftFence(left) + RightFence(right);
    assert v[0] == LeftFence(left)[0] && v[1] == RightFence(right)[0];
  }

  /** A stacked script holds the third child's tree (the subscript) and then the first
      child's (the superscript); its base is attached later. */
  lemma SuShape(f: Fragment, rev: Revision)
    requires Classify(f, rev) == SuTemplate && Build(f, rev).Ok?
    ensures |f.children| >= 3
    ensures Build(f.children[2], rev).Ok? && Build(f.children[0], rev).Ok?
    ensures Build(f, rev).value == Node(Su, "", [Build(f.children[2], rev).value, Build(f.children[0], rev).value])
  {
    assert Build(f, rev) == SuTree(f, rev);
    WrapTwo(Su, "", Build(f.children[2], rev), Build(f.children[0], rev));
  }

  /** Sub- and superscripts, and the over- and underscripts (`sup` and `sub` marked "2"),
      hold one child, the row of their content, in the Wikipedia revisions; in the user
      script a sub- or superscript holds one child per child node. */
  lemma ScriptShape(f: Fragment, rev: Revision)
    requires Classify(f, rev) in {SubTemplate, SupTemplate, OverTemplate, UnderTemplate} && Build(f, rev).Ok?
    ensures var r := Build(f, rev).value;
      var t := Classify(f, rev);
      r.kind == (if t in {SubTemplate, UnderTemplate} then Sub else Sup)
      && r.value == (if t in {OverTemplate, UnderTemplate} then "2" else "")
      && (rev != InlineUserScript ==> |r.children| == 1 && RowTree(f, rev) == Ok(r.children[0]))
      && (rev == InlineUserScript ==> (|r.children| == |f.children|
          && forall i :: 0 <= i < |f.children| ==> Build(f.children[i], rev) == Ok(r.children[i])))
  {
  }

  /** An italic variable: its one character as a text node, or a row of one text node per
      character. */
  lemma VariableShape(f: Fragment, rev: Revision)
    requires Classify(f, rev) == VariableTemplate
    ensures var d := f.children[0].data;
      var r := Build(f, rev);
      r.Ok?
      && (|d| == 1 ==> r.value == Leaf(d))
      && (|d| != 1 ==> (r.value.kind == Row && |r.value.children| == |d|
          && forall i :: 0 <= i < |d| ==> r.value.children[i] == Leaf([d[i]])))
  {
  }
}
