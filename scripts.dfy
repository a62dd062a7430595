/** `FixSubSup`: a sub- or superscript that has only its script takes the sibling before it
    as its base; a script node still without a base becomes a row. */
module Scripts {
  import opened ExprTree

  /** A script the loop gives a base: a sub- or superscript with one child, or a stacked
      script with two. */
  predicate NeedsBase(c: Node)
  {
    ((c.kind == Sub || c.kind == Sup) && |c.children| == 1) || (c.kind == Su && |c.children| == 2)
  }

  /** `child.children.unshift(base)` */
  function WithBase(base: Node, c: Node): Node
  {
    Node(c.kind, c.value, [base] + c.children)
  }

  /** One turn of the `for` loop, with `acc` the children before position `i`. */
  function Step(acc: seq<Node>, c: Node): (r: seq<Node>)
    requires acc != []
    ensures r != []
  {
    if NeedsBase(c) then acc[..|acc| - 1] + [WithBase(acc[|acc| - 1], c)] else acc + [c]
  }

  function AttachFrom(acc: seq<Node>, rest: seq<Node>): seq<Node>
    requires acc != []
    decreases |rest|
  {
    if rest == [] then acc else AttachFrom(Step(acc, rest[0]), rest[1..])
  }

  /** The `for` loop of `FixSubSup` over a node's children, from the second child on. */
  function Attach(cs: seq<Node>): seq<Node>
  {
    if cs == [] then [] else AttachFrom([cs[0]], cs[1..])
  }

  method AttachScripts(cs: seq<Node>) returns (r: seq<Node>)
    ensures r == Attach(cs)
  {
    r := cs;
    if |r| == 0 {
      return;
    }
    assert r[..1] == [cs[0]];
    var i := 1;
    while i < |r|
      invariant 1 <= i <= |r|
      invariant AttachFrom(r[..i], r[i..]) == Attach(cs)
      decreases |r| - i
    {
      var child := r[i];
      AttachTurn(r, i);
      if (child.kind == Sub || child.kind == Sup) && |child.children| == 1 {
        i := i - 1;
        r := r[..i] + [Node(child.kind, child.value, [r[i]] + child.children)] + r[i + 2..];
      } else if child.kind == Su && |child.children| == 2 {
        i := i - 1;
        r := r[..i] + [Node(child.kind, child.value, [r[i]] + child.children)] + r[i + 2..];
      }
      i := i + 1;
    }
    assert r[i..] == [];
  }

  /** One turn of the loop at position `i`, as the splice and `unshift` write it. */
  lemma AttachTurn(r: seq<Node>, i: nat)
    requires 1 <= i < |r|
    ensures NeedsBase(r[i]) ==>
      var r' := r[..i - 1] + [Node(r[i].kind, r[i].value, [r[i - 1]] + r[i].children)] + r[i + 1..];
      AttachFrom(r[..i], r[i..]) == AttachFrom(r'[..i], r'[i..])
    ensures !NeedsBase(r[i]) ==> AttachFrom(r[..i], r[i..]) == AttachFrom(r[..i + 1], r[i + 1..])
  {
    assert AttachFrom(r[..i], r[i..]) == AttachFrom(Step(r[..i], r[i]), r[i + 1..]);
    if NeedsBase(r[i]) {
      var r' := r[..i - 1] + [Node(r[i].kind, r[i].value, [r[i - 1]] + r[i].children)] + r[i + 1..];
      assert r'[..i] == Step(r[..i], r[i]);
      assert r'[i..] == r[i + 1..];
    } else {
      assert r[..i + 1] == Step(r[..i], r[i]);
    }
  }

  /** A script taking its base keeps the text in order and the number of nodes. */
  lemma WithBaseKeeps(b: Node, c: Node)
    requires NeedsBase(c)
    ensures Reading(WithBase(b, c)) == Reading(b) + Reading(c)
    ensures Size(WithBase(b, c)) == Size(b) + Size(c)
  {
    assert ([b] + c.children)[1..] == c.children;
  }

  lemma StepKeeps(acc: seq<Node>, c: Node)
    requires acc != []
    ensures ReadingList(Step(acc, c)) == ReadingList(acc) + Reading(c)
    ensures SizeList(Step(acc, c)) == SizeList(acc) + Size(c)
  {
    if NeedsBase(c) {
      var init, last := acc[..|acc| - 1], acc[|acc| - 1];
      BaseStepKeeps(init, last, c);
      assert acc == init + [last];
    } else {
      ListPlusNode(acc, c);
    }
  }

  lemma BaseStepKeeps(init: seq<Node>, last: Node, c: Node)
    requires NeedsBase(c)
    ensures ReadingList(init + [WithBase(last, c)]) == ReadingList(init + [last]) + Reading(c)
    ensures SizeList(init + [WithBase(last, c)]) == SizeList(init + [last]) + Size(c)
  {
    WithBaseKeeps(last, c);
    ListPlusNode(init, last);
    ListPlusNode(init, WithBase(last, c));
  }

  lemma ListPlusNode(a: seq<Node>, x: Node)
    ensures ReadingList(a + [x]) == ReadingList(a) + Reading(x)
    ensures SizeList(a + [x]) == SizeList(a) + Size(x)
  {
    ReadingListAppend(a, [x]);
    SizeListAppend(a, [x]);
    assert ReadingList([x]) == Reading(x) + ReadingList([]);
    assert SizeList([x]) == Size(x) + SizeList([]);
  }

  lemma {:induction false} AttachFromKeeps(acc: seq<Node>, rest: seq<Node>)
    requires acc != []
    ensures ReadingList(AttachFrom(acc, rest)) == ReadingList(acc) + ReadingList(rest)
    ensures SizeList(AttachFrom(acc, rest)) == SizeList(acc) + SizeList(rest)
    decreases |rest|
  {
    if rest != [] {
      StepKeeps(acc, rest[0]);
      AttachFromKeeps(Step(acc, rest[0]), rest[1..]);
    }
  }

  /** Nodes are only moved: the children read the same and count the same nodes. */
  lemma AttachKeeps(cs: seq<Node>)
    ensures ReadingList(Attach(cs)) == ReadingList(cs)
    ensures SizeList(Attach(cs)) == SizeList(cs)
  {
    if cs != [] {
      AttachFromKeeps([cs[0]], cs[1..]);
      assert cs == [cs[0]] + cs[1..];
      ReadingListAppend([cs[0]], cs[1..]);
      SizeListAppend([cs[0]], cs[1..]);
    }
  }

  /** A one-child script after a sibling takes that sibling as its first child. */
  lemma BaseAttached(b: Node, s: Node)
    requires NeedsBase(s)
    ensures Attach([b, s]) == [WithBase(b, s)]
  {
    assert [b, s][1..] == [s];
    assert Step([b], s) == [WithBase(b, s)];
    assert AttachFrom([b], [s]) == AttachFrom(Step([b], s), []);
  }

  /** The children `FixSubSup` leaves at a node before it recurses. */
  function LevelOf(n: Node): (cs: seq<Node>)
    ensures SizeList(cs) == SizeList(n.children)
  {
    if n.kind == Sub || n.kind == Sup || n.kind == Su then n.children
    else
      AttachKeeps(n.children);
      Attach(n.children)
  }

  /** The type `FixSubSup` leaves at a node: a script without its base becomes a row. */
  function KindOf(n: Node): Kind
  {
    if (n.kind == Sub || n.kind == Sup) && |n.children| < 2 then Row
    else if n.kind == Su && |n.children| < 3 then Row
    else n.kind
  }

  /** `FixSubSup` on a whole tree. */
  function Fixed(n: Node): Node
    decreases Size(n)
  {
    var cs := LevelOf(n);
    AllBelow(cs);
    Node(KindOf(n), n.value, seq(|cs|, i requires 0 <= i < |cs| => Fixed(cs[i])))
  }

  method FixSubSup(n: Node) returns (r: Node)
    ensures r == Fixed(n)
    decreases Size(n)
  {
    var kind := n.kind;
    var cs := n.children;
    if n.kind == Sub || n.kind == Sup {
      if |n.children| < 2 {
        kind := Row;
      }
    } else if n.kind == Su {
      if |n.children| < 3 {
        kind := Row;
      }
    } else {
      cs := AttachScripts(cs);
    }
    assert cs == LevelOf(n);
    AllBelow(cs);
    var out: seq<Node> := [];
    for i := 0 to |cs|
      invariant |out| == i
      invariant forall k :: 0 <= k < i ==> out[k] == Fixed(cs[k])
    {
      var c := FixSubSup(cs[i]);
      out := out + [c];
    }
    r := Node(kind, n.value, out);
  }

  /** Every sub- and superscript has at least a base and a script, every stacked script a
      base and two scripts. */
  predicate ScriptsComplete(n: Node)
  {
    ((n.kind == Sub || n.kind == Sup) ==> |n.children| >= 2)
    && (n.kind == Su ==> |n.children| >= 3)
    && forall i :: 0 <= i < |n.children| ==> ScriptsComplete(n.children[i])
  }

  /** After the pass every script node is complete. */
  lemma {:induction false} FixedComplete(n: Node)
    ensures ScriptsComplete(Fixed(n))
    decreases Size(n)
  {
    var cs := LevelOf(n);
    AllBelow(cs);
    forall i | 0 <= i < |cs|
      ensures ScriptsComplete(Fixed(cs[i]))
    {
      FixedComplete(cs[i]);
    }
  }

  /** The pass moves nodes and relabels some of them, so the tree reads the same and has
      as many nodes as before. */
  lemma {:induction false} FixedKeeps(n: Node)
    ensures Reading(Fixed(n)) == Reading(n)
    ensures Size(Fixed(n)) == Size(n)
    decreases Size(n)
  {
    var cs := LevelOf(n);
    AllBelow(cs);
    var r := Fixed(n);
    forall i | 0 <= i < |cs|
      ensures Reading(r.children[i]) == Reading(cs[i]) && Size(r.children[i]) == Size(cs[i])
    {
      FixedKeeps(cs[i]);
    }
    ReadingListPointwise(r.children, cs);
    SizeListPointwise(r.children, cs);
    if !(n.kind == Sub || n.kind == Sup || n.kind == Su) {
      AttachKeeps(n.children);
    }
  }

  /** No sub- or superscript has more than a base and a script, no stacked script more than
      a base and two scripts. */
  predicate ScriptsBounded(n: Node)
  {
    ((n.kind == Sub || n.kind == Sup) ==> |n.children| <= 2)
    && (n.kind == Su ==> |n.children| <= 3)
    && forall i :: 0 <= i < |n.children| ==> ScriptsBounded(n.children[i])
  }

  /** Every sub- and superscript has exactly a base and a script, every stacked script
      exactly a base and two scripts. */
  predicate ScriptsExact(n: Node)
  {
    ((n.kind == Sub || n.kind == Sup) ==> |n.children| == 2)
    && (n.kind == Su ==> |n.children| == 3)
    && forall i :: 0 <= i < |n.children| ==> ScriptsExact(n.children[i])
  }

  predicate AllBounded(cs: seq<Node>)
  {
    forall i :: 0 <= i < |cs| ==> ScriptsBounded(cs[i])
  }

  lemma {:induction false} AttachFromBounded(acc: seq<Node>, rest: seq<Node>)
    requires acc != [] && AllBounded(acc) && AllBounded(rest)
    ensures AllBounded(AttachFrom(acc, rest))
    decreases |rest|
  {
    if rest != [] {
      var c := rest[0];
      var next := Step(acc, c);
      if NeedsBase(c) {
        var b := WithBase(acc[|acc| - 1], c);
        assert forall i :: 1 <= i < |b.children| ==> b.children[i] == c.children[i - 1];
        assert ScriptsBounded(b);
        assert next == acc[..|acc| - 1] + [b];
      }
      assert AllBounded(next);
      assert AllBounded(rest[1..]) by {
        forall i | 0 <= i < |rest[1..]|
          ensures ScriptsBounded(rest[1..][i])
        {
          assert rest[1..][i] == rest[i + 1];
        }
      }
      AttachFromBounded(next, rest[1..]);
    }
  }

  /** Giving scripts their bases keeps every script within its arity: a script only takes
      a base when it has exactly its scripts. */
  lemma AttachBounded(cs: seq<Node>)
    requires AllBounded(cs)
    ensures AllBounded(Attach(cs))
  {
    if cs != [] {
      assert AllBounded(cs[1..]) by {
        forall i | 0 <= i < |cs[1..]|
          ensures ScriptsBounded(cs[1..][i])
        {
          assert cs[1..][i] == cs[i + 1];
        }
      }
      AttachFromBounded([cs[0]], cs[1..]);
    }
  }

  /** On a tree whose scripts are within their arity, the pass leaves every script with
      exactly its base and scripts: one that has them is kept, one that lacks its base
      becomes a row. */
  lemma {:induction false} FixedExact(n: Node)
    requires ScriptsBounded(n)
    ensures ScriptsExact(Fixed(n))
    decreases Size(n)
  {
    var cs := LevelOf(n);
    AllBelow(cs);
    if !(n.kind == Sub || n.kind == Sup || n.kind == Su) {
      AttachBounded(n.children);
    }
    assert AllBounded(cs);
    forall i | 0 <= i < |cs|
      ensures ScriptsExact(Fixed(cs[i]))
    {
      FixedExact(cs[i]);
    }
  }
}
