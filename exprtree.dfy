/** The expression tree every revision builds: `new Node(type, value, children)`.
    The type is one of a closed set of kinds; the value is the text of a `text` node,
    the two delimiters of a `fence`, the glyph of an `integral`, and the marker "2" that
    turns a `sub`/`sup` into an under/over script. */
module ExprTree {
  import opened Strings

  datatype Kind = Row | Sqrt | Radic | Frac | Integral | Sub | Sup | Su | Fence | Text

  datatype Node = Node(kind: Kind, value: string, children: seq<Node>)

  /** The `type` string the scripts store and print. */
  function KindName(k: Kind): string
  {
    match k
    case Row => "row"
    case Sqrt => "sqrt"
    case Radic => "radic"
    case Frac => "frac"
    case Integral => "integral"
    case Sub => "sub"
    case Sup => "sup"
    case Su => "su"
    case Fence => "fence"
    case Text => "text"
  }

  /** `new Node("text", s)` */
  function Leaf(s: string): Node
  {
    Node(Text, s, [])
  }

  /** `new Node("row", "")` */
  const EmptyRow: Node := Node(Row, "", [])

  /** The number of nodes in a tree. */
  function Size(n: Node): nat
  {
    1 + SizeList(n.children)
  }

  function SizeList(cs: seq<Node>): nat
  {
    if cs == [] then 0 else Size(cs[0]) + SizeList(cs[1..])
  }

  lemma {:induction false} SizeListAppend(a: seq<Node>, b: seq<Node>)
    ensures SizeList(a + b) == SizeList(a) + SizeList(b)
  {
    if a == [] {
      assert a + b == b;
    } else {
      assert (a + b)[1..] == a[1..] + b;
      SizeListAppend(a[1..], b);
    }
  }

  lemma {:induction false} SizeElement(cs: seq<Node>, i: nat)
    requires i < |cs|
    ensures Size(cs[i]) <= SizeList(cs)
  {
    if i > 0 {
      SizeElement(cs[1..], i - 1);
    }
  }

  /** The tree read from left to right: what a reader of the rendered formula meets, in
      order. A `text` node reads as its value, a `fence` as its two delimiters around
      its children, an `integral` as its glyph before its limits, any other node as its
      children. */
  function Reading(n: Node): string
  {
    match n.kind
    case Text => n.value
    case Fence => CharAt(n.value, 0) + ReadingList(n.children) + CharAt(n.value, 1)
    case Integral => n.value + ReadingList(n.children)
    case _ => ReadingList(n.children)
  }

  function ReadingList(cs: seq<Node>): string
  {
    if cs == [] then "" else Reading(cs[0]) + ReadingList(cs[1..])
  }

  lemma {:induction false} ReadingListAppend(a: seq<Node>, b: seq<Node>)
    ensures ReadingList(a + b) == ReadingList(a) + ReadingList(b)
  {
    if a == [] {
      assert a + b == b;
    } else {
      assert (a + b)[1..] == a[1..] + b;
      ReadingListAppend(a[1..], b);
    }
  }

  /** Every node of a list is at most as large as the list. */
  lemma AllBelow(cs: seq<Node>)
    ensures forall i :: 0 <= i < |cs| ==> Size(cs[i]) <= SizeList(cs)
  {
    forall i | 0 <= i < |cs|
      ensures Size(cs[i]) <= SizeList(cs)
    {
      SizeElement(cs, i);
    }
  }

  /** Two lists whose nodes read alike, position by position, read alike. */
  lemma {:induction false} ReadingListPointwise(a: seq<Node>, b: seq<Node>)
    requires |a| == |b|
    requires forall i :: 0 <= i < |a| ==> Reading(a[i]) == Reading(b[i])
    ensures ReadingList(a) == ReadingList(b)
  {
    if a != [] {
      ReadingListPointwise(a[1..], b[1..]);
    }
  }

  lemma {:induction false} SizeListPointwise(a: seq<Node>, b: seq<Node>)
    requires |a| == |b|
    requires forall i :: 0 <= i < |a| ==> Size(a[i]) == Size(b[i])
    ensures SizeList(a) == SizeList(b)
  {
    if a != [] {
      SizeListPointwise(a[1..], b[1..]);
    }
  }

  /** A list around one of its nodes reads, and counts, as its three parts. */
  lemma AroundNode(a: seq<Node>, x: Node, b: seq<Node>)
    ensures ReadingList(a + [x] + b) == ReadingList(a) + Reading(x) + ReadingList(b)
    ensures SizeList(a + [x] + b) == SizeList(a) + Size(x) + SizeList(b)
  {
    ReadingListAppend(a + [x], b);
    ReadingListAppend(a, [x]);
    SizeListAppend(a + [x], b);
    SizeListAppend(a, [x]);
    assert ReadingList([x]) == Reading(x) + ReadingList([]);
    assert SizeList([x]) == Size(x) + SizeList([]);
  }

  /** A `text` node never has children in a tree the scripts build. */
  predicate TextIsLeaf(n: Node)
  {
    (n.kind == Text ==> n.children == []) && forall i :: 0 <= i < |n.children| ==> TextIsLeaf(n.children[i])
  }

  /** `"  ".repeat(level)` */
  function Indent(level: nat): (r: string)
    ensures |r| == 2 * level && forall k :: 0 <= k < |r| ==> r[k] == ' '
  {
    if level == 0 then "" else "  " + Indent(level - 1)
  }

  /** `Node.prototype.stringify(level)`: this node's line, then its children's text one
      level deeper. */
  function Stringify(n: Node, level: nat): (r: string)
    ensures |r| > 0 && r[|r| - 1] == '\n'
  {
    Indent(level) + KindName(n.kind) + ":" + n.value + "\n" + StringifyList(n.children, level + 1)
  }

  function StringifyList(cs: seq<Node>, level: nat): (r: string)
    ensures r == "" || r[|r| - 1] == '\n'
  {
    if cs == [] then "" else Stringify(cs[0], level) + StringifyList(cs[1..], level)
  }

  /** The tree's nodes in document order (preorder), each with its depth. */
  function Outline(n: Node, level: nat): seq<(nat, Node)>
  {
    [(level, n)] + OutlineList(n.children, level + 1)
  }

  function OutlineList(cs: seq<Node>, level: nat): seq<(nat, Node)>
  {
    if cs == [] then [] else Outline(cs[0], level) + OutlineList(cs[1..], level)
  }

  /** The printed line of one outline entry. */
  function Line(entry: (nat, Node)): string
  {
    Indent(entry.0) + KindName(entry.1.kind) + ":" + entry.1.value + "\n"
  }

  function Lines(o: seq<(nat, Node)>): seq<string>
  {
    if o == [] then [] else [Line(o[0])] + Lines(o[1..])
  }

  lemma {:induction false} LinesAppend(a: seq<(nat, Node)>, b: seq<(nat, Node)>)
    ensures Lines(a + b) == Lines(a) + Lines(b)
  {
    if a == [] {
      assert a + b == b;
    } else {
      assert (a + b)[1..] == a[1..] + b;
      LinesAppend(a[1..], b);
    }
  }

  /** `stringify` prints exactly one line per node, in document order: the node's depth
      below the starting level as two spaces each, then `type:value`; the outline has
      one entry per node, starting with the node itself, every entry at least as deep as
      the starting level. */
  lemma {:induction false} StringifyPrintsOutline(n: Node, level: nat)
    ensures Stringify(n, level) == Concat(Lines(Outline(n, level)))
    ensures |Outline(n, level)| == Size(n)
    ensures Outline(n, level)[0] == (level, n)
    ensures forall k :: 0 <= k < |Outline(n, level)| ==> Outline(n, level)[k].0 >= level
  {
    StringifyListPrintsOutline(n.children, level + 1);
    var o := Outline(n, level);
    assert o == [(level, n)] + OutlineList(n.children, level + 1);
    LinesAppend([(level, n)], OutlineList(n.children, level + 1));
    ConcatAppend([Line((level, n))], Lines(OutlineList(n.children, level + 1)));
    assert Lines([(level, n)]) == [Line((level, n))];
    assert Concat([Line((level, n))]) == Line((level, n));
  }

  lemma {:induction false} StringifyListPrintsOutline(cs: seq<Node>, level: nat)
    ensures StringifyList(cs, level) == Concat(Lines(OutlineList(cs, level)))
    ensures |OutlineList(cs, level)| == SizeList(cs)
    ensures forall k :: 0 <= k < |OutlineList(cs, level)| ==> OutlineList(cs, level)[k].0 >= level
  {
    if cs != [] {
      StringifyPrintsOutline(cs[0], level);
      StringifyListPrintsOutline(cs[1..], level);
      LinesAppend(Outline(cs[0], level), OutlineList(cs[1..], level));
      ConcatAppend(Lines(Outline(cs[0], level)), Lines(OutlineList(cs[1..], level)));
    }
  }
}
