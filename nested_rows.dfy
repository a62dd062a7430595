/** `RemoveNestedRows`: a row's row children are replaced by their children until none is
    left, then every child is processed the same way. */
module NestedRows {
  import opened ExprTree

  /** `node.children.some(child => child.type === "row")` */
  predicate HasRow(cs: seq<Node>)
  {
    exists i :: 0 <= i < |cs| && cs[i].kind == Row
  }

  /** One round of the loop: every row child is replaced by its own children. */
  function Flatten(cs: seq<Node>): seq<Node>
  {
    if cs == [] then [] else (if cs[0].kind == Row then cs[0].children else [cs[0]]) + Flatten(cs[1..])
  }

  /** The reference: every row among the nodes is expanded all the way down to the nodes
      that are not rows, left to right. */
  function Expand(cs: seq<Node>): seq<Node>
    decreases SizeList(cs)
  {
    if cs == [] then []
    else
      assert SizeList(cs) == 1 + SizeList(cs[0].children) + SizeList(cs[1..]);
      (if cs[0].kind == Row then Expand(cs[0].children) else [cs[0]]) + Expand(cs[1..])
  }

  lemma {:induction false} FlattenSize(cs: seq<Node>)
    ensures SizeList(Flatten(cs)) <= SizeList(cs)
    ensures HasRow(cs) ==> SizeList(Flatten(cs)) < SizeList(cs)
  {
    if cs != [] {
      FlattenSize(cs[1..]);
      var head := if cs[0].kind == Row then cs[0].children else [cs[0]];
      SizeListAppend(head, Flatten(cs[1..]));
      assert SizeList([cs[0]]) == Size(cs[0]) + SizeList([]);
      if HasRow(cs) && cs[0].kind != Row {
        var i :| 0 <= i < |cs| && cs[i].kind == Row;
        assert cs[1..][i - 1].kind == Row;
      }
    }
  }

  /** The `while` loop of `RemoveNestedRows`, as a function of the children. */
  function Unnest(cs: seq<Node>): seq<Node>
    decreases SizeList(cs)
  {
    if !HasRow(cs) then cs
    else
      FlattenSize(cs);
      Unnest(Flatten(cs))
  }

  method FlattenRows(cs: seq<Node>) returns (r: seq<Node>)
    ensures r == Unnest(cs)
  {
    r := cs;
    while HasRow(r)
      invariant Unnest(r) == Unnest(cs)
      decreases SizeList(r)
    {
      FlattenSize(r);
      r := Flatten(r);
    }
  }

  lemma {:induction false} FlattenAppend(a: seq<Node>, b: seq<Node>)
    ensures Flatten(a + b) == Flatten(a) + Flatten(b)
  {
    if a == [] {
      assert a + b == b;
    } else {
      assert (a + b)[1..] == a[1..] + b;
      FlattenAppend(a[1..], b);
    }
  }

  lemma {:induction false} ExpandAppend(a: seq<Node>, b: seq<Node>)
    ensures Expand(a + b) == Expand(a) + Expand(b)
    decreases SizeList(a)
  {
    SizeListAppend(a, b);
    if a == [] {
      assert a + b == b;
    } else {
      assert (a + b)[1..] == a[1..] + b;
      ExpandAppend(a[1..], b);
    }
  }

  lemma {:induction false} ExpandFlatten(cs: seq<Node>)
    ensures Expand(Flatten(cs)) == Expand(cs)
  {
    if cs != [] {
      ExpandFlatten(cs[1..]);
      var head := if cs[0].kind == Row then cs[0].children else [cs[0]];
      ExpandAppend(head, Flatten(cs[1..]));
      if cs[0].kind != Row {
        assert Expand([cs[0]]) == [cs[0]] + Expand([]);
      }
    }
  }

  lemma {:induction false} ExpandNoRow(cs: seq<Node>)
    requires !HasRow(cs)
    ensures Expand(cs) == cs
  {
    if cs != [] {
      assert cs[0].kind != Row;
      assert !HasRow(cs[1..]) by {
        forall i | 0 <= i < |cs[1..]|
          ensures cs[1..][i].kind != Row
        {
          assert cs[1..][i] == cs[i + 1];
        }
      }
      ExpandNoRow(cs[1..]);
    }
  }

  /** The loop leaves exactly the reference expansion: the non-row nodes below the rows, in
      their left-to-right order, nothing else. */
  lemma {:induction false} UnnestIsExpand(cs: seq<Node>)
    ensures Unnest(cs) == Expand(cs)
    decreases SizeList(cs)
  {
    if !HasRow(cs) {
      ExpandNoRow(cs);
    } else {
      FlattenSize(cs);
      UnnestIsExpand(Flatten(cs));
      ExpandFlatten(cs);
    }
  }

  /** The loop stops only when no child is a row. */
  lemma {:induction false} UnnestHasNoRow(cs: seq<Node>)
    ensures !HasRow(Unnest(cs))
    decreases SizeList(cs)
  {
    if HasRow(cs) {
      FlattenSize(cs);
      UnnestHasNoRow(Flatten(cs));
    }
  }

  lemma {:induction false} UnnestSize(cs: seq<Node>)
    ensures SizeList(Unnest(cs)) <= SizeList(cs)
    decreases SizeList(cs)
  {
    if HasRow(cs) {
      FlattenSize(cs);
      UnnestSize(Flatten(cs));
    }
  }

  lemma {:induction false} FlattenReading(cs: seq<Node>)
    ensures ReadingList(Flatten(cs)) == ReadingList(cs)
  {
    if cs != [] {
      FlattenReading(cs[1..]);
      var head := if cs[0].kind == Row then cs[0].children else [cs[0]];
      ReadingListAppend(head, Flatten(cs[1..]));
      assert ReadingList([cs[0]]) == Reading(cs[0]) + ReadingList([]);
    }
  }

  lemma {:induction false} UnnestReading(cs: seq<Node>)
    ensures ReadingList(Unnest(cs)) == ReadingList(cs)
    decreases SizeList(cs)
  {
    if HasRow(cs) {
      FlattenSize(cs);
      UnnestReading(Flatten(cs));
      FlattenReading(cs);
    }
  }

  /** The children `RemoveNestedRows` leaves at a node before it recurses. */
  function LevelOf(n: Node): (cs: seq<Node>)
    ensures SizeList(cs) <= SizeList(n.children)
  {
    if n.kind == Row then
      UnnestSize(n.children);
      Unnest(n.children)
    else n.children
  }

  /** `RemoveNestedRows` on a whole tree: the node keeps its type and value. */
  function Unnested(n: Node): (r: Node)
    ensures r.kind == n.kind && r.value == n.value
    decreases Size(n)
  {
    var cs := LevelOf(n);
    AllBelow(cs);
    Node(n.kind, n.value, seq(|cs|, i requires 0 <= i < |cs| => Unnested(cs[i])))
  }

  method RemoveNestedRows(n: Node) returns (r: Node)
    ensures r == Unnested(n)
    decreases Size(n)
  {
    var cs := n.children;
    if n.kind == Row {
      cs := FlattenRows(cs);
    }
    assert cs == LevelOf(n);
    AllBelow(cs);
    var out: seq<Node> := [];
    for i := 0 to |cs|
      invariant |out| == i
      invariant forall k :: 0 <= k < i ==> out[k] == Unnested(cs[k])
    {
      var c := RemoveNestedRows(cs[i]);
      out := out + [c];
    }
    r := Node(n.kind, n.value, out);
  }

  /** No row anywhere in the tree has a row as a direct child. */
  predicate RowsFlat(n: Node)
  {
    (n.kind == Row ==> !HasRow(n.children))
    && forall i :: 0 <= i < |n.children| ==> RowsFlat(n.children[i])
  }

  lemma {:induction false} UnnestedIsFlat(n: Node)
    ensures RowsFlat(Unnested(n))
    decreases Size(n)
  {
    var cs := LevelOf(n);
    AllBelow(cs);
    var r := Unnested(n);
    if n.kind == Row {
      UnnestHasNoRow(n.children);
      assert forall i :: 0 <= i < |cs| ==> r.children[i].kind == cs[i].kind;
    }
    forall i | 0 <= i < |cs|
      ensures RowsFlat(r.children[i])
    {
      UnnestedIsFlat(cs[i]);
    }
  }

  /** The tree reads the same before and after. */
  lemma {:induction false} UnnestedReading(n: Node)
    ensures Reading(Unnested(n)) == Reading(n)
    decreases Size(n)
  {
    var cs := LevelOf(n);
    AllBelow(cs);
    var r := Unnested(n);
    forall i | 0 <= i < |cs|
      ensures Reading(r.children[i]) == Reading(cs[i])
    {
      UnnestedReading(cs[i]);
    }
    ReadingListPointwise(r.children, cs);
    if n.kind == Row {
      UnnestReading(n.children);
    }
  }

  /** A tree without nested rows is left as it is. */
  lemma {:induction false} FlatIsFixed(n: Node)
    requires RowsFlat(n)
    ensures Unnested(n) == n
    decreases Size(n)
  {
    var cs := LevelOf(n);
    assert cs == n.children;
    AllBelow(cs);
    forall i | 0 <= i < |cs|
      ensures Unnested(cs[i]) == cs[i]
    {
      FlatIsFixed(cs[i]);
    }
  }

  /** Running the pass twice is running it once. */
  lemma UnnestedIdempotent(n: Node)
    ensures Unnested(Unnested(n)) == Unnested(n)
  {
    UnnestedIsFlat(n);
    FlatIsFixed(Unnested(n));
  }
}
