/** The post-processing and output of the user script (inlinemath.user.js): rows are
    flattened and each level's parentheses are grouped into `fence` nodes, and the tree is
    printed with `stringify`. */
module InlineMath {
  import opened Wrappers
  import opened Strings
  import opened Fragments
  import opened ExprTree
  import opened Templates
  import opened Builder
  import opened NestedRows

  /** The value every fence the user script creates carries. */
  const Parentheses: string := "parentheses"

  /** `child.type === "text" && child.value === "("` */
  predicate IsOpen(n: Node)
  {
    n.kind == Text && |n.value| == 1 && n.value[0] == '('
  }

  /** `child.type === "text" && child.value === closeFence` */
  predicate Closes(n: Node, close: string)
  {
    n.kind == Text && n.value == close
  }

  /** `MatchOpenFences(children, closeFence)`, as written: the nodes before the first
      opening parenthesis or closing fence; at an opening parenthesis, one fence around
      what follows up to its closing parenthesis, and nothing after that. */
  function OpenFences(cs: seq<Node>, close: string): (r: seq<Node>)
    ensures |r| <= |cs|
    decreases |cs|
  {
    if cs == [] then []
    else if IsOpen(cs[0]) then [Node(Fence, Parentheses, OpenFences(cs[1..], ")"))]
    else if Closes(cs[0], close) then []
    else [cs[0]] + OpenFences(cs[1..], close)
  }

  lemma OpenFencesStep(cs: seq<Node>, i: nat, close: string)
    requires i < |cs| && !IsOpen(cs[i]) && !Closes(cs[i], close)
    ensures OpenFences(cs[i..], close) == [cs[i]] + OpenFences(cs[i + 1..], close)
  {
    assert cs[i..][1..] == cs[i + 1..];
  }

  /** The loop of `MatchOpenFences`. */
  method MatchOpenFences(cs: seq<Node>, close: string) returns (r: seq<Node>)
    ensures r == OpenFences(cs, close)
    decreases |cs|
  {
    var current: seq<Node> := [];
    for i := 0 to |cs|
      invariant OpenFences(cs, close) == current + OpenFences(cs[i..], close)
    {
      var child := cs[i];
      if IsOpen(child) {
        var inner := MatchOpenFences(cs[i + 1..], ")");
        assert cs[i..][1..] == cs[i + 1..];
        return current + [Node(Fence, Parentheses, inner)];
      } else if Closes(child, close) {
        return current;
      }
      OpenFencesStep(cs, i, close);
      current := current + [child];
    }
    assert cs[|cs|..] == [];
    r := current;
  }

  /** The grouped nodes of a level and the nodes left after its closing fence. */
  datatype Grouping = Grouping(items: seq<Node>, rest: seq<Node>)

  /** The intended grouping: the nodes up to the closing fence, each parenthesised stretch
      as one fence; the nodes after the closing fence are left for the caller. */
  function Grouped(cs: seq<Node>, close: string): (r: Grouping)
    ensures |r.rest| <= |cs|
    decreases |cs|
  {
    if cs == [] then Grouping([], [])
    else if IsOpen(cs[0]) then
      var inner := Grouped(cs[1..], ")");
      var more := Grouped(inner.rest, close);
      Grouping([Node(Fence, Parentheses, inner.items)] + more.items, more.rest)
    else if Closes(cs[0], close) then Grouping([], cs[1..])
    else
      var more := Grouped(cs[1..], close);
      Grouping([cs[0]] + more.items, more.rest)
  }

  /** `MatchOpenFences(tree.children, "")` as intended. */
  function GroupLevel(cs: seq<Node>): seq<Node>
  {
    Grouped(cs, "").items
  }

  /** The tree read from left to right with the parentheses left out: a text node reads as
      its value unless it is a parenthesis, an integral as its glyph before its limits, any
      other node (a fence too) as its children. */
  function Plain(n: Node): string
  {
    if n.kind == Text then (if |n.value| == 1 && (n.value[0] == '(' || n.value[0] == ')') then "" else n.value)
    else if n.kind == Integral then n.value + PlainList(n.children)
    else PlainList(n.children)
  }

  function PlainList(cs: seq<Node>): string
  {
    if cs == [] then "" else Plain(cs[0]) + PlainList(cs[1..])
  }

  lemma {:induction false} PlainListAppend(a: seq<Node>, b: seq<Node>)
    ensures PlainList(a + b) == PlainList(a) + PlainList(b)
  {
    if a == [] {
      assert a + b == b;
    } else {
      assert (a + b)[1..] == a[1..] + b;
      PlainListAppend(a[1..], b);
    }
  }

  lemma PlainListCons(n: Node, cs: seq<Node>)
    ensures PlainList([n] + cs) == Plain(n) + PlainList(cs)
  {
    assert ([n] + cs)[1..] == cs;
  }

  /** No node of the list is a text node equal to `close`. */
  predicate NoClose(cs: seq<Node>, close: string)
  {
    forall i :: 0 <= i < |cs| ==> !Closes(cs[i], close)
  }

  lemma NoCloseSuffix(cs: seq<Node>, close: string, k: nat)
    requires k <= |cs| && NoClose(cs, close)
    ensures NoClose(cs[k..], close)
  {
    assert forall i :: 0 <= i < |cs| - k ==> cs[k..][i] == cs[k + i];
  }

  /** What grouping leaves over is a suffix of the level. */
  lemma {:induction false} RestIsSuffix(cs: seq<Node>, close: string)
    ensures var rest := Grouped(cs, close).rest;
      rest == cs[|cs| - |rest|..]
    decreases |cs|
  {
    if cs != [] {
      if IsOpen(cs[0]) {
        var inner := Grouped(cs[1..], ")");
        RestIsSuffix(cs[1..], ")");
        RestIsSuffix(inner.rest, close);
        SuffixOfSuffix(cs, inner.rest, Grouped(inner.rest, close).rest);
      } else if !Closes(cs[0], close) {
        RestIsSuffix(cs[1..], close);
        SuffixOfSuffix(cs, cs[1..], Grouped(cs[1..], close).rest);
      }
    }
  }

  lemma SuffixOfSuffix(cs: seq<Node>, a: seq<Node>, b: seq<Node>)
    requires |a| <= |cs| && a == cs[|cs| - |a|..]
    requires |b| <= |a| && b == a[|a| - |b|..]
    ensures b == cs[|cs| - |b|..]
  {
  }

  /** Grouping keeps every node that is not a parenthesis, in order: the list reads as the
      grouped nodes followed by the nodes left after the closing fence. */
  lemma {:induction false} GroupedPlain(cs: seq<Node>, close: string)
    requires close == ")" || NoClose(cs, close)
    ensures PlainList(cs) == PlainList(Grouped(cs, close).items) + PlainList(Grouped(cs, close).rest)
    decreases |cs|
  {
    if cs == [] {
    } else if IsOpen(cs[0]) {
      var inner := Grouped(cs[1..], ")");
      GroupedPlain(cs[1..], ")");
      if close != ")" {
        RestIsSuffix(cs[1..], ")");
        NoCloseSuffix(cs, close, |cs| - |inner.rest|);
      }
      GroupedPlain(inner.rest, close);
      var more := Grouped(inner.rest, close);
      OpenIsSilent(cs);
      FencePlain(inner.items, more.items);
      JoinPieces(PlainList(cs), PlainList(inner.items), PlainList(inner.rest), PlainList(more.items),
        PlainList(more.rest), PlainList([Node(Fence, Parentheses, inner.items)] + more.items));
    } else if Closes(cs[0], close) {
      if close != ")" {
        assert false;
      }
      assert cs[0].value == ")";
    } else {
      var more := Grouped(cs[1..], close);
      if close != ")" {
        NoCloseSuffix(cs, close, 1);
      }
      GroupedPlain(cs[1..], close);
      PlainListCons(cs[0], more.items);
    }
  }

  lemma OpenIsSilent(cs: seq<Node>)
    requires cs != [] && IsOpen(cs[0])
    ensures PlainList(cs) == PlainList(cs[1..])
  {
  }

  lemma FencePlain(items: seq<Node>, more: seq<Node>)
    ensures PlainList([Node(Fence, Parentheses, items)] + more) == PlainList(items) + PlainList(more)
  {
    PlainListCons(Node(Fence, Parentheses, items), more);
  }

  lemma JoinPieces(whole: string, a: string, rest: string, b: string, c: string, grouped: string)
    requires whole == a + rest && rest == b + c && grouped == a + b
    ensures whole == grouped + c
  {
  }

  /** Without a closing fence among the nodes, every node is taken. */
  lemma {:induction false} GroupedTakesAll(cs: seq<Node>, close: string)
    requires NoClose(cs, close)
    ensures Grouped(cs, close).rest == []
    decreases |cs|
  {
    if cs != [] {
      NoCloseSuffix(cs, close, 1);
      GroupedTakesAll(cs[1..], close);
      if IsOpen(cs[0]) {
        var inner := Grouped(cs[1..], ")");
        RestIsSuffix(cs[1..], ")");
        NoCloseSuffix(cs, close, |cs| - |inner.rest|);
        GroupedTakesAll(inner.rest, close);
      }
    }
  }

  /** A level without an empty text node reads the same, parentheses aside, once grouped. */
  lemma GroupLevelPlain(cs: seq<Node>)
    requires NoClose(cs, "")
    ensures PlainList(GroupLevel(cs)) == PlainList(cs)
  {
    GroupedPlain(cs, "");
    GroupedTakesAll(cs, "");
  }

  /** As written, grouping only ever loses nodes at the end: what it keeps reads as a
      prefix of the level, parentheses aside. */
  lemma {:induction false} OpenFencesPrefix(cs: seq<Node>, close: string)
    ensures PlainList(OpenFences(cs, close)) <= PlainList(cs)
    decreases |cs|
  {
    if cs != [] {
      OpenFencesPrefix(cs[1..], close);
      if IsOpen(cs[0]) {
        OpenFencesPrefix(cs[1..], ")");
        PlainListCons(Node(Fence, Parentheses, OpenFences(cs[1..], ")")), []);
      } else if !Closes(cs[0], close) {
        PlainListCons(cs[0], OpenFences(cs[1..], close));
        var x := PlainList(OpenFences(cs[1..], close));
        var y := PlainList(cs[1..]);
        assert Plain(cs[0]) + y == Plain(cs[0]) + x + y[|x|..];
      }
    }
  }

  /** Where no opening parenthesis occurs, the grouping as written and as intended agree:
      both keep the nodes before the first closing fence. */
  lemma {:induction false} NoOpenAgrees(cs: seq<Node>, close: string)
    requires forall i :: 0 <= i < |cs| ==> !IsOpen(cs[i])
    ensures OpenFences(cs, close) == Grouped(cs, close).items
    decreases |cs|
  {
    if cs != [] && !Closes(cs[0], close) {
      assert !IsOpen(cs[0]);
      NoOpenAgrees(cs[1..], close);
    }
  }

  /** A level without an opening parenthesis (and without an empty text node, which the
      outermost call's closing fence "" would match) is left as it is. */
  lemma {:induction false} NoOpenUnchanged(cs: seq<Node>)
    requires forall i :: 0 <= i < |cs| ==> !IsOpen(cs[i])
    requires NoClose(cs, "")
    ensures OpenFences(cs, "") == cs
    decreases |cs|
  {
    if cs != [] {
      NoCloseSuffix(cs, "", 1);
      NoOpenUnchanged(cs[1..]);
    }
  }

  /** The first parenthesised group ends the level as written: in `(a)+b` the `+b` is lost,
      where the intended grouping keeps it. */
  lemma DropsAfterGroup()
    ensures var cs := [Leaf("("), Leaf("a"), Leaf(")"), Leaf("+"), Leaf("b")];
      var group := Node(Fence, Parentheses, [Leaf("a")]);
      OpenFences(cs, "") == [group]
      && GroupLevel(cs) == [group, Leaf("+"), Leaf("b")]
      && PlainList(OpenFences(cs, "")) != PlainList(cs)
  {
    var tail := [Leaf("+"), Leaf("b")];
    var cs := [Leaf("("), Leaf("a"), Leaf(")")] + tail;
    assert cs == [Leaf("("), Leaf("a"), Leaf(")"), Leaf("+"), Leaf("b")];
    var group := Node(Fence, Parentheses, [Leaf("a")]);
    ClosedGroup(tail);
    assert OpenFences(cs, "") == [group];
    TailKept();
    assert cs[3..] == tail;
    assert Grouped(cs, "") == Grouping([group] + tail, []);
    PlainReadsOut(tail);
  }

  lemma ClosedGroup(tail: seq<Node>)
    ensures var cs := [Leaf("("), Leaf("a"), Leaf(")")] + tail;
      OpenFences(cs[1..], ")") == [Leaf("a")] && Grouped(cs[1..], ")") == Grouping([Leaf("a")], tail)
  {
    var cs := [Leaf("("), Leaf("a"), Leaf(")")] + tail;
    var rest := [Leaf(")")] + tail;
    assert cs[1..] == [Leaf("a")] + rest;
    assert rest[1..] == tail;
    assert cs[1..][1..] == rest;
    assert OpenFences(rest, ")") == [];
    assert Grouped(rest, ")") == Grouping([], tail);
  }

  lemma TailKept()
    ensures Grouped([Leaf("+"), Leaf("b")], "") == Grouping([Leaf("+"), Leaf("b")], [])
  {
    assert [Leaf("+"), Leaf("b")][1..] == [Leaf("b")];
    assert [Leaf("b")][1..] == [];
    assert Grouped([], "") == Grouping([], []);
    assert Grouped([Leaf("b")], "") == Grouping([Leaf("b")], []);
  }

  lemma PlainReadsOut(tail: seq<Node>)
    requires tail == [Leaf("+"), Leaf("b")]
    ensures PlainList([Node(Fence, Parentheses, [Leaf("a")])]) == "a"
    ensures PlainList([Leaf("("), Leaf("a"), Leaf(")")] + tail) == "a+b"
  {
    var cs := [Leaf("("), Leaf("a"), Leaf(")")] + tail;
    assert PlainList([Leaf("a")]) == "a" + PlainList([]);
    assert PlainList([Node(Fence, Parentheses, [Leaf("a")])]) == "a" + PlainList([]);
    assert tail[1..] == [Leaf("b")];
    assert PlainList([Leaf("b")]) == "b" + PlainList([]);
    assert PlainList(tail) == "+b";
    assert cs[1..][1..][1..] == tail;
    assert PlainList(cs[1..][1..]) == "" + PlainList(tail);
    assert PlainList(cs[1..]) == "a" + PlainList(cs[1..][1..]);
    assert PlainList(cs) == "" + PlainList(cs[1..]);
  }

  /** `TreePostProcessing` of the user script, as written: each child is processed in full
      once the rows are flattened, then this level's parentheses are grouped. */
  function InlineProcessed(n: Node): (r: Node)
    ensures r.kind == n.kind && r.value == n.value
    decreases Size(n)
  {
    var cs := LevelOf(n);
    AllBelow(cs);
    Node(n.kind, n.value, OpenFences(seq(|cs|, i requires 0 <= i < |cs| => InlineProcessed(cs[i])), ""))
  }

  /** `TreePostProcessing`, `RemoveNestedRows` and `MatchFences` together: rows are
      flattened, the children processed one by one, then the level grouped. */
  method TreePostProcessing(n: Node) returns (r: Node)
    ensures r == InlineProcessed(n)
    decreases Size(n)
  {
    var cs := n.children;
    if n.kind == Row {
      cs := FlattenRows(cs);
    }
    assert cs == LevelOf(n);
    AllBelow(cs);
    var out: seq<Node> := [];
    for i := 0 to |cs|
      invariant |out| == i
      invariant forall k :: 0 <= k < i ==> out[k] == InlineProcessed(cs[k])
    {
      var c := TreePostProcessing(cs[i]);
      out := out + [c];
    }
    assert out == seq(|cs|, i requires 0 <= i < |cs| => InlineProcessed(cs[i]));
    var grouped := MatchOpenFences(out, "");
    r := Node(n.kind, n.value, grouped);
  }

  /** The same processing with the intended grouping. */
  function InlineFixed(n: Node): (r: Node)
    ensures r.kind == n.kind && r.value == n.value
    decreases Size(n)
  {
    var cs := LevelOf(n);
    AllBelow(cs);
    Node(n.kind, n.value, GroupLevel(seq(|cs|, i requires 0 <= i < |cs| => InlineFixed(cs[i]))))
  }

  /** No text node anywhere in the tree is empty. */
  predicate NoEmptyText(n: Node)
  {
    (n.kind == Text ==> n.value != "") && forall i :: 0 <= i < |n.children| ==> NoEmptyText(n.children[i])
  }

  /** The trees the builders return have no empty text node. */
  lemma {:induction false} ShapedHasNoEmptyText(n: Node, rev: Revision)
    requires Shaped(n, rev)
    ensures NoEmptyText(n)
    decreases n
  {
    forall i | 0 <= i < |n.children|
      ensures NoEmptyText(n.children[i])
    {
      ShapedHasNoEmptyText(n.children[i], rev);
    }
  }

  lemma {:induction false} FlattenNoEmptyText(cs: seq<Node>)
    requires forall i :: 0 <= i < |cs| ==> NoEmptyText(cs[i])
    ensures forall i :: 0 <= i < |Flatten(cs)| ==> NoEmptyText(Flatten(cs)[i])
  {
    if cs != [] {
      FlattenNoEmptyText(cs[1..]);
      var head := if cs[0].kind == Row then cs[0].children else [cs[0]];
      assert forall i :: 0 <= i < |head| ==> NoEmptyText(head[i]);
      assert Flatten(cs) == head + Flatten(cs[1..]);
    }
  }

  lemma {:induction false} UnnestNoEmptyText(cs: seq<Node>)
    requires forall i :: 0 <= i < |cs| ==> NoEmptyText(cs[i])
    ensures forall i :: 0 <= i < |Unnest(cs)| ==> NoEmptyText(Unnest(cs)[i])
    decreases SizeList(cs)
  {
    if HasRow(cs) {
      FlattenSize(cs);
      FlattenNoEmptyText(cs);
      UnnestNoEmptyText(Flatten(cs));
    }
  }

  lemma {:induction false} FlattenPlain(cs: seq<Node>)
    ensures PlainList(Flatten(cs)) == PlainList(cs)
  {
    if cs != [] {
      FlattenPlain(cs[1..]);
      var head := if cs[0].kind == Row then cs[0].children else [cs[0]];
      PlainListAppend(head, Flatten(cs[1..]));
      assert PlainList([cs[0]]) == Plain(cs[0]) + PlainList([]);
    }
  }

  lemma {:induction false} UnnestPlain(cs: seq<Node>)
    ensures PlainList(Unnest(cs)) == PlainList(cs)
    decreases SizeList(cs)
  {
    if HasRow(cs) {
      FlattenSize(cs);
      UnnestPlain(Flatten(cs));
      FlattenPlain(cs);
    }
  }

  lemma {:induction false} PlainListPointwise(a: seq<Node>, b: seq<Node>)
    requires |a| == |b|
    requires forall i :: 0 <= i < |a| ==> Plain(a[i]) == Plain(b[i])
    ensures PlainList(a) == PlainList(b)
  {
    if a != [] {
      PlainListPointwise(a[1..], b[1..]);
    }
  }

  /** The nodes of a level without empty text nodes, once processed. */
  lemma LevelNoEmptyText(n: Node)
    requires NoEmptyText(n)
    ensures forall i :: 0 <= i < |LevelOf(n)| ==> NoEmptyText(LevelOf(n)[i])
  {
    if n.kind == Row {
      UnnestNoEmptyText(n.children);
    }
  }

  /** The intended processing loses no text: the tree reads the same before and after,
      parentheses aside. */
  lemma {:induction false} InlineFixedPlain(n: Node)
    requires NoEmptyText(n)
    ensures Plain(InlineFixed(n)) == Plain(n)
    decreases Size(n)
  {
    if n.kind != Text {
      var cs := LevelOf(n);
      AllBelow(cs);
      LevelNoEmptyText(n);
      var done := seq(|cs|, i requires 0 <= i < |cs| => InlineFixed(cs[i]));
      forall i | 0 <= i < |cs|
        ensures Plain(done[i]) == Plain(cs[i])
      {
        InlineFixedPlain(cs[i]);
      }
      PlainListPointwise(done, cs);
      assert NoClose(done, "");
      GroupLevelPlain(done);
      if n.kind == Row {
        UnnestPlain(n.children);
      }
    }
  }

  /** `GetMathMLFromElement` of the user script: no MathML yet; the text it logs, the
      processed tree printed by `stringify` followed by four line breaks. A build that
      reads a missing child throws. */
  function GetMathMLFromElement(f: Fragment): (r: Outcome<string>)
    ensures r.Ok? <==> Build(f, InlineUserScript).Ok?
    ensures r.Ok? ==>
      var tree := InlineFixed(Build(f, InlineUserScript).value);
      r.value == Concat(Lines(Outline(tree, 0))) + "\n\n\n\n"
      && |Outline(tree, 0)| == Size(tree)
  {
    match Build(f, InlineUserScript)
    case Ok(t) =>
      var tree := InlineFixed(t);
      StringifyPrintsOutline(tree, 0);
      Ok(Stringify(tree, 0) + "\n\n\n\n")
    case _ => Throws
  }

  /** What the user script logs reads, parentheses aside, as the tree it built. */
  lemma LoggedTreeKeepsText(f: Fragment)
    requires Build(f, InlineUserScript).Ok?
    ensures Plain(InlineFixed(Build(f, InlineUserScript).value)) == Plain(Build(f, InlineUserScript).value)
  {
    BuildShaped(f, InlineUserScript);
    ShapedHasNoEmptyText(Build(f, InlineUserScript).value, InlineUserScript);
    InlineFixedPlain(Build(f, InlineUserScript).value);
  }
}
