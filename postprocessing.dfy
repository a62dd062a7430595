/** `TreePostProcessing` of the Wikipedia revisions: nested rows are removed, brackets are
    paired into fences, and scripts are given their bases, in that order. */
module PostProcessing {
  import opened Wrappers
  import opened ExprTree
  import opened NestedRows
  import opened Fences
  import opened Scripts
  import opened Templates
  import opened Builder

  /** The three passes, with the intended bracket pairing. */
  function PostProcess(n: Node): Node
  {
    Fixed(Matched(Unnested(n)))
  }

  /** The passes, as written: `MatchFences` never ends when a bracket is left open, and
      otherwise the tree is the one `PostProcess` gives. */
  method TreePostProcessing(n: Node) returns (r: Outcome<Node>)
    ensures !r.Throws?
    ensures r.Ok? <==> FencesEnd(Unnested(n))
    ensures r.Ok? ==> r.value == PostProcess(n)
  {
    var flat := RemoveNestedRows(n);
    var fenced := MatchFences(flat);
    if !fenced.Ok? {
      return Diverges;
    }
    var fixed := FixSubSup(fenced.value);
    return Ok(fixed);
  }

  /** The passes only regroup and relabel: the tree reads the same. */
  lemma PostProcessReading(n: Node)
    ensures Reading(PostProcess(n)) == Reading(n)
  {
    UnnestedReading(n);
    MatchedReading(Unnested(n));
    FixedKeeps(Matched(Unnested(n)));
  }

  /** After the passes every script node has its base. */
  lemma PostProcessComplete(n: Node)
    ensures ScriptsComplete(PostProcess(n))
  {
    FixedComplete(Matched(Unnested(n)));
  }

  /** A subscript alone in a row: the row has no nested row, but `FixSubSup` turns the
      subscript, which has no sibling before it, into a row inside the row. A second run
      of the passes then removes it, so the passes are not idempotent. */
  lemma DemotionNestsRows()
    ensures RowsFlat(Node(Row, "", [Node(Sub, "", [Leaf("x")])]))
    ensures PostProcess(Node(Row, "", [Node(Sub, "", [Leaf("x")])])) == Node(Row, "", [Node(Row, "", [Leaf("x")])])
    ensures !RowsFlat(PostProcess(Node(Row, "", [Node(Sub, "", [Leaf("x")])])))
    ensures PostProcess(PostProcess(Node(Row, "", [Node(Sub, "", [Leaf("x")])]))) == Node(Row, "", [Leaf("x")])
  {
    var x := Leaf("x");
    var s := Node(Sub, "", [x]);
    var t := Node(Row, "", [s]);
    assert RowsFlat(x);
    assert RowsFlat(s);
    FlatIsFixed(t);
    LeafMatched(x);
    assert Scan([x]) == NoPair by {
      assert ScanFrom([x], 1, -1) == NoPair;
    }
    assert Scan([s]) == NoPair by {
      assert ScanFrom([s], 1, -1) == NoPair;
    }
    assert Matched(s) == s;
    assert Matched(t) == t;
    LeafFixed(x);
    assert Attach([s]) == [s];
    assert Fixed(s) == Node(Row, "", [x]);
    var u := Node(Row, "", [Node(Row, "", [x])]);
    assert PostProcess(t) == u;
    assert u.children[0].kind == Row;
    var v := Node(Row, "", [x]);
    assert HasRow(u.children);
    assert Flatten(u.children) == [x];
    assert !HasRow([x]);
    assert Unnest(u.children) == [x];
    assert Unnested(u) == v;
    assert Scan([x]) == NoPair by {
      assert ScanFrom([x], 1, -1) == NoPair;
    }
    assert Matched(v) == v;
    assert Attach([x]) == [x];
    assert Fixed(v) == v;
  }

  lemma LeafMatched(x: Node)
    requires x.children == []
    ensures Matched(x) == x
  {
    assert Scan([]) == NoPair;
  }

  lemma LeafFixed(x: Node)
    requires x.children == [] && x.kind == Text
    ensures Fixed(x) == x
  {
  }

  lemma {:induction false} FlattenBounded(cs: seq<Node>)
    requires AllBounded(cs)
    ensures AllBounded(Flatten(cs))
  {
    if cs != [] {
      FlattenBounded(cs[1..]);
      var head := if cs[0].kind == Row then cs[0].children else [cs[0]];
      assert AllBounded(head);
      assert Flatten(cs) == head + Flatten(cs[1..]);
    }
  }

  lemma {:induction false} UnnestBounded(cs: seq<Node>)
    requires AllBounded(cs)
    ensures AllBounded(Unnest(cs))
    decreases SizeList(cs)
  {
    if HasRow(cs) {
      FlattenSize(cs);
      FlattenBounded(cs);
      UnnestBounded(Flatten(cs));
    }
  }

  /** Removing nested rows only splices rows, so scripts keep their children. */
  lemma {:induction false} UnnestedBounded(n: Node)
    requires ScriptsBounded(n)
    ensures ScriptsBounded(Unnested(n))
    decreases Size(n)
  {
    var cs := NestedRows.LevelOf(n);
    AllBelow(cs);
    if n.kind == Row {
      UnnestBounded(n.children);
    }
    forall i | 0 <= i < |cs|
      ensures ScriptsBounded(Unnested(cs[i]))
    {
      UnnestedBounded(cs[i]);
    }
  }

  /** Pairing brackets wraps children in fences: no list grows and no script is touched. */
  lemma {:induction false} PairLevelBounded(cs: seq<Node>)
    requires AllBounded(cs)
    ensures AllBounded(PairLevel(cs)) && |PairLevel(cs)| <= |cs|
    decreases |cs|
  {
    match Scan(cs)
    case NoPair =>
    case PairAt(j, i) =>
      var f := FenceOf(cs, j, i);
      assert forall k :: 0 <= k < |f.children| ==> f.children[k] == cs[j + 1 + k];
      var s := Splice(cs, j, i);
      assert forall k :: 0 <= k < |s| ==> s[k] == (if k < j then cs[k] else if k == j then f else cs[k + (i - j)]);
      PairLevelBounded(s);
  }

  lemma {:induction false} MatchedBounded(n: Node)
    requires ScriptsBounded(n)
    ensures ScriptsBounded(Matched(n))
    decreases Size(n)
  {
    var cs := PairedChildren(n);
    AllBelow(cs);
    PairLevelBounded(n.children);
    forall i | 0 <= i < |cs|
      ensures ScriptsBounded(Matched(cs[i]))
    {
      MatchedBounded(cs[i]);
    }
  }

  /** On a tree the Wikipedia revisions build, after the passes every sub- and superscript
      has exactly a base and a script, and every stacked script exactly a base and two
      scripts. */
  lemma BuiltScriptsExact(n: Node, rev: Revision)
    requires Shaped(n, rev) && rev != InlineUserScript
    ensures ScriptsExact(PostProcess(n))
  {
    ShapedBounded(n, rev);
    UnnestedBounded(n);
    MatchedBounded(Unnested(n));
    FixedExact(Matched(Unnested(n)));
  }

  lemma {:induction false} ShapedBounded(n: Node, rev: Revision)
    requires Shaped(n, rev) && rev != InlineUserScript
    ensures ScriptsBounded(n)
    decreases n
  {
    forall i | 0 <= i < |n.children|
      ensures ScriptsBounded(n.children[i])
    {
      ShapedBounded(n.children[i], rev);
    }
  }
}
