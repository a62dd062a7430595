/** `MatchFences` of the Wikipedia revisions: while a child is an open bracket, the first
    close bracket that has an open bracket before it is paired with the nearest such open,
    and the two with everything between them become one `fence` node. */
module Fences {
  import opened Wrappers
  import opened Strings
  import opened ExprTree

  /** A text node `(`, `[` or `{` (the `openFences` list). */
  predicate IsOpen(n: Node)
  {
    n.kind == Text && |n.value| == 1 && (n.value[0] == '(' || n.value[0] == '[' || n.value[0] == '{')
  }

  /** A text node `)`, `]` or `}` (the `closeFences` list). */
  predicate IsClose(n: Node)
  {
    n.kind == Text && |n.value| == 1 && (n.value[0] == ')' || n.value[0] == ']' || n.value[0] == '}')
  }

  lemma OpenIsNotClose(n: Node)
    ensures !(IsOpen(n) && IsClose(n))
  {
  }

  /** The `while` condition: some child is an open bracket. */
  predicate HasOpen(cs: seq<Node>)
  {
    exists k :: 0 <= k < |cs| && IsOpen(cs[k])
  }

  /** How one pass of the `for` loop ends: without a pair, or with the open bracket at
      `open` and the close bracket at `close` paired. */
  datatype ScanResult = NoPair | PairAt(open: nat, close: nat)

  /** The `for` loop from position `i`, with `last` the position of the last open bracket
      seen (`-1` for none). */
  function ScanFrom(cs: seq<Node>, i: nat, last: int): (r: ScanResult)
    requires i <= |cs| && -1 <= last < i
    ensures r.PairAt? ==> r.open < r.close < |cs|
    decreases |cs| - i
  {
    if i == |cs| then NoPair
    else if IsOpen(cs[i]) then ScanFrom(cs, i + 1, i)
    else if IsClose(cs[i]) && last != -1 then PairAt(last, i)
    else ScanFrom(cs, i + 1, last)
  }

  function Scan(cs: seq<Node>): (r: ScanResult)
    ensures r.PairAt? ==> r.open < r.close < |cs|
  {
    ScanFrom(cs, 0, -1)
  }

  /** No open bracket before position `i` is followed by a close bracket before `i`. */
  predicate NoPairBefore(cs: seq<Node>, i: nat)
    requires i <= |cs|
  {
    forall p, q :: 0 <= p < q < i && IsOpen(cs[p]) ==> !IsClose(cs[q])
  }

  /** `last` is the last open bracket before `i`, or `-1` when there is none. */
  predicate LastOpen(cs: seq<Node>, i: nat, last: int)
    requires i <= |cs|
  {
    (last == -1 ==> forall k :: 0 <= k < i ==> !IsOpen(cs[k]))
    && (last != -1 ==> 0 <= last < i && IsOpen(cs[last]) && forall k :: last < k < i ==> !IsOpen(cs[k]))
  }

  /** The pair the loop picks: the close bracket at `i` is the first one with an open
      bracket before it, `j` the nearest open bracket before it, and no bracket lies
      between them. */
  predicate Paired(cs: seq<Node>, j: nat, i: nat)
  {
    j < i < |cs| && IsOpen(cs[j]) && IsClose(cs[i])
    && (forall k :: j < k < i ==> !IsOpen(cs[k]) && !IsClose(cs[k]))
    && NoPairBefore(cs, i)
  }

  lemma {:induction false} ScanFromSpec(cs: seq<Node>, i: nat, last: int)
    requires i <= |cs| && -1 <= last < i
    requires LastOpen(cs, i, last) && NoPairBefore(cs, i)
    ensures ScanFrom(cs, i, last).NoPair? ==> NoPairBefore(cs, |cs|)
    ensures ScanFrom(cs, i, last).PairAt? ==> Paired(cs, ScanFrom(cs, i, last).open, ScanFrom(cs, i, last).close)
    decreases |cs| - i
  {
    if i < |cs| {
      OpenIsNotClose(cs[i]);
      if IsOpen(cs[i]) {
        ScanFromSpec(cs, i + 1, i);
      } else if IsClose(cs[i]) && last != -1 {
        forall k | last < k < i
          ensures !IsClose(cs[k])
        {
        }
      } else {
        ScanFromSpec(cs, i + 1, last);
      }
    }
  }

  /** The `for` loop finds a pair exactly when an open bracket is followed by a close
      bracket, and the pair it finds is the first close with the nearest open before it. */
  lemma ScanSpec(cs: seq<Node>)
    ensures Scan(cs).NoPair? <==> NoPairBefore(cs, |cs|)
    ensures Scan(cs).PairAt? ==> Paired(cs, Scan(cs).open, Scan(cs).close)
  {
    ScanFromSpec(cs, 0, -1);
  }

  /** The fence that replaces the pair and what lies between. */
  function FenceOf(cs: seq<Node>, j: nat, i: nat): Node
    requires j < i < |cs|
  {
    Node(Fence, cs[j].value + cs[i].value, cs[j + 1..i])
  }

  /** The two `splice` calls: the children from `j` to `i` replaced by their fence. */
  function Splice(cs: seq<Node>, j: nat, i: nat): (r: seq<Node>)
    requires j < i < |cs|
    ensures |r| == |cs| - (i - j)
  {
    cs[..j] + [FenceOf(cs, j, i)] + cs[i + 1..]
  }

  /** `MatchFences` at one node, as written: the `while` loop runs until no child is an
      open bracket, and never ends (`Diverges`) when an open bracket is left with no close
      bracket after it. */
  function MatchLevel(cs: seq<Node>): (r: Outcome<seq<Node>>)
    ensures r.Ok? ==> !HasOpen(r.value)
    ensures !r.Throws?
    decreases |cs|
  {
    if !HasOpen(cs) then Ok(cs)
    else
      match Scan(cs)
      case NoPair => Diverges
      case PairAt(j, i) => MatchLevel(Splice(cs, j, i))
  }

  /** The loops of `MatchFences` at one node. Where the source's `while` loop would spin
      for ever, this returns `Diverges`. */
  method MatchFencesLevel(cs: seq<Node>) returns (r: Outcome<seq<Node>>)
    ensures r == MatchLevel(cs)
  {
    var children := cs;
    while HasOpen(children)
      invariant MatchLevel(children) == MatchLevel(cs)
      decreases |children|
    {
      var found, next := PairFirst(children);
      if !found {
        return Diverges;
      }
      children := next;
    }
    return Ok(children);
  }

  /** The `for` loop inside the `while` loop: it remembers the last open bracket, and at
      the first close bracket after one replaces the two and what lies between by a fence. */
  method PairFirst(children: seq<Node>) returns (found: bool, next: seq<Node>)
    ensures found <==> Scan(children).PairAt?
    ensures found ==> next == Splice(children, Scan(children).open, Scan(children).close)
    ensures found ==> |next| < |children|
  {
    var lastFencePos := -1;
    var lastFenceType := "";
    found, next := false, children;
    for i := 0 to |children|
      invariant !found
      invariant -1 <= lastFencePos < i
      invariant ScanFrom(children, i, lastFencePos) == Scan(children)
      invariant lastFencePos != -1 ==> lastFenceType == children[lastFencePos].value
    {
      var child := children[i];
      if IsOpen(child) {
        lastFencePos := i;
        lastFenceType := child.value;
      } else if IsClose(child) && lastFencePos != -1 {
        var newNode := Node(Fence, lastFenceType + child.value, children[lastFencePos + 1..i]);
        next := children[..lastFencePos] + [newNode] + children[i + 1..];
        assert Scan(children) == PairAt(lastFencePos, i);
        found := true;
        return;
      }
    }
  }

  /** The evidently intended loop: pair brackets while a pair is left, and leave an open
      bracket that has no close bracket after it as it is. */
  function PairLevel(cs: seq<Node>): seq<Node>
    decreases |cs|
  {
    match Scan(cs)
    case NoPair => cs
    case PairAt(j, i) => PairLevel(Splice(cs, j, i))
  }

  /** The number of open and of close brackets among the nodes. */
  function Opens(s: seq<Node>): nat
  {
    if s == [] then 0 else (if IsOpen(s[0]) then 1 else 0) + Opens(s[1..])
  }

  function Closes(s: seq<Node>): nat
  {
    if s == [] then 0 else (if IsClose(s[0]) then 1 else 0) + Closes(s[1..])
  }

  lemma {:induction false} CountsAppend(a: seq<Node>, b: seq<Node>)
    ensures Opens(a + b) == Opens(a) + Opens(b)
    ensures Closes(a + b) == Closes(a) + Closes(b)
  {
    if a == [] {
      assert a + b == b;
    } else {
      assert (a + b)[1..] == a[1..] + b;
      CountsAppend(a[1..], b);
    }
  }

  lemma {:induction false} NoBracketCounts(s: seq<Node>)
    requires forall k :: 0 <= k < |s| ==> !IsOpen(s[k]) && !IsClose(s[k])
    ensures Opens(s) == 0 && Closes(s) == 0
  {
    if s != [] {
      NoBracketCounts(s[1..]);
    }
  }

  lemma {:induction false} NoCloseCount(s: seq<Node>)
    requires forall k :: 0 <= k < |s| ==> !IsClose(s[k])
    ensures Closes(s) == 0
  {
    if s != [] {
      NoCloseCount(s[1..]);
    }
  }

  /** Every open bracket has at least as many close brackets as open brackets from it to
      the end of the list: the condition under which the source's loop ends. */
  predicate EveryOpenCloses(cs: seq<Node>)
  {
    forall p :: 0 <= p < |cs| && IsOpen(cs[p]) ==> Opens(cs[p..]) <= Closes(cs[p..])
  }

  lemma {:induction false} SuffixBound(s: seq<Node>)
    requires EveryOpenCloses(s)
    ensures Opens(s) <= Closes(s)
  {
    if s != [] {
      if IsOpen(s[0]) {
        assert s[0..] == s;
      } else {
        forall p | 0 <= p < |s[1..]| && IsOpen(s[1..][p])
          ensures Opens(s[1..][p..]) <= Closes(s[1..][p..])
        {
          assert s[1..][p..] == s[p + 1..];
        }
        SuffixBound(s[1..]);
      }
    }
  }

  /** The parts of a list around a pair. */
  lemma PairParts(cs: seq<Node>, j: nat, i: nat, p: nat)
    requires Paired(cs, j, i) && p <= j
    ensures Opens(cs[p..]) == Opens(cs[p..j]) + 1 + Opens(cs[i + 1..])
    ensures Closes(cs[p..]) == Closes(cs[p..j]) + 1 + Closes(cs[i + 1..])
    ensures Opens(Splice(cs, j, i)[p..]) == Opens(cs[p..j]) + Opens(cs[i + 1..])
    ensures Closes(Splice(cs, j, i)[p..]) == Closes(cs[p..j]) + Closes(cs[i + 1..])
  {
    var f := FenceOf(cs, j, i);
    assert cs[p..] == cs[p..j] + ([cs[j]] + cs[j + 1..i] + [cs[i]] + cs[i + 1..]);
    assert Splice(cs, j, i)[p..] == cs[p..j] + ([f] + cs[i + 1..]);
    var mid := cs[j + 1..i];
    forall k | 0 <= k < |mid|
      ensures !IsOpen(mid[k]) && !IsClose(mid[k])
    {
      assert mid[k] == cs[j + 1 + k];
    }
    NoBracketCounts(mid);
    CountsAppend(cs[p..j], [cs[j]] + cs[j + 1..i] + [cs[i]] + cs[i + 1..]);
    CountsAppend([cs[j]] + cs[j + 1..i] + [cs[i]], cs[i + 1..]);
    CountsAppend([cs[j]] + cs[j + 1..i], [cs[i]]);
    CountsAppend([cs[j]], cs[j + 1..i]);
    CountsAppend(cs[p..j], [f] + cs[i + 1..]);
    CountsAppend([f], cs[i + 1..]);
    OpenIsNotClose(cs[j]);
    OpenIsNotClose(cs[i]);
    assert Opens([cs[j]]) == 1 + Opens([]) && Closes([cs[j]]) == Closes([]);
    assert Opens([cs[i]]) == Opens([]) && Closes([cs[i]]) == 1 + Closes([]);
    assert Opens([f]) == Opens([]) && Closes([f]) == Closes([]);
  }

  /** Pairing keeps the condition. */
  lemma SpliceKeepsCloses(cs: seq<Node>, j: nat, i: nat)
    requires Paired(cs, j, i) && EveryOpenCloses(cs)
    ensures EveryOpenCloses(Splice(cs, j, i))
  {
    var s := Splice(cs, j, i);
    forall p | 0 <= p < |s| && IsOpen(s[p])
      ensures Opens(s[p..]) <= Closes(s[p..])
    {
      if p < j {
        assert s[p] == cs[p];
        PairParts(cs, j, i, p);
      } else {
        assert p != j;
        assert s[p..] == cs[p + (i - j)..];
      }
    }
  }

  /** And the condition after pairing implies it before. */
  lemma SpliceNeedsCloses(cs: seq<Node>, j: nat, i: nat)
    requires Paired(cs, j, i) && EveryOpenCloses(Splice(cs, j, i))
    ensures EveryOpenCloses(cs)
  {
    AfterPairCloses(cs, j, i);
    forall p | 0 <= p < |cs| && IsOpen(cs[p])
      ensures Opens(cs[p..]) <= Closes(cs[p..])
    {
      NeedsClosesAt(cs, j, i, p);
    }
  }

  /** The nodes after the pair keep the condition, and so close every bracket they open. */
  lemma AfterPairCloses(cs: seq<Node>, j: nat, i: nat)
    requires Paired(cs, j, i) && EveryOpenCloses(Splice(cs, j, i))
    ensures Opens(cs[i + 1..]) <= Closes(cs[i + 1..])
  {
    var rest := cs[i + 1..];
    forall q | 0 <= q < |rest| && IsOpen(rest[q])
      ensures Opens(rest[q..]) <= Closes(rest[q..])
    {
      assert rest[q..] == cs[i + 1 + q..];
      TailOpenCloses(cs, j, i, i + 1 + q);
    }
    SuffixBound(rest);
  }

  /** An open bracket after the pair is still followed by enough close brackets. */
  lemma TailOpenCloses(cs: seq<Node>, j: nat, i: nat, p: nat)
    requires Paired(cs, j, i) && EveryOpenCloses(Splice(cs, j, i))
    requires i < p < |cs| && IsOpen(cs[p])
    ensures Opens(cs[p..]) <= Closes(cs[p..])
  {
    var s := Splice(cs, j, i);
    var q := p - (i - j);
    SpliceTail(cs, j, i, p);
    assert s[q] == s[q..][0] == cs[p..][0];
    assert Opens(s[q..]) <= Closes(s[q..]);
  }

  /** The nodes of the spliced list after the fence are those after the close bracket. */
  lemma SpliceTail(cs: seq<Node>, j: nat, i: nat, q: nat)
    requires j < i < q <= |cs|
    ensures Splice(cs, j, i)[q - (i - j)..] == cs[q..]
  {
    var s := Splice(cs, j, i);
    assert s == cs[..j] + [FenceOf(cs, j, i)] + cs[i + 1..];
    assert s[j + 1..] == cs[i + 1..];
    assert cs[i + 1..][q - (i + 1)..] == cs[q..];
  }

  lemma NeedsClosesAt(cs: seq<Node>, j: nat, i: nat, p: nat)
    requires Paired(cs, j, i) && EveryOpenCloses(Splice(cs, j, i))
    requires Opens(cs[i + 1..]) <= Closes(cs[i + 1..])
    requires p < |cs| && IsOpen(cs[p])
    ensures Opens(cs[p..]) <= Closes(cs[p..])
  {
    var s := Splice(cs, j, i);
    if p < j {
      assert s[p] == cs[p];
      PairParts(cs, j, i, p);
    } else if p == j {
      PairParts(cs, j, i, p);
      assert cs[p..j] == [];
    } else {
      OpenIsNotClose(cs[i]);
      assert p > i;
      SpliceTail(cs, j, i, p);
      assert s[p - (i - j)] == cs[p];
    }
  }

  /** Under the condition, an open bracket always has a close bracket after it. */
  lemma ClosesGivePair(cs: seq<Node>)
    requires HasOpen(cs) && EveryOpenCloses(cs)
    ensures Scan(cs).PairAt?
  {
    ScanSpec(cs);
    if Scan(cs).NoPair? {
      var p :| 0 <= p < |cs| && IsOpen(cs[p]);
      var s := cs[p..];
      forall k | 0 <= k < |s|
        ensures !IsClose(s[k])
      {
        assert s[k] == cs[p + k];
        OpenIsNotClose(cs[p]);
      }
      NoCloseCount(s);
      assert false;
    }
  }

  /** The source's loop ends exactly when every open bracket has at least as many close
      brackets as open brackets from it on. */
  lemma {:induction false} MatchLevelEnds(cs: seq<Node>)
    ensures MatchLevel(cs).Ok? <==> EveryOpenCloses(cs)
    decreases |cs|
  {
    ScanSpec(cs);
    if HasOpen(cs) {
      if EveryOpenCloses(cs) {
        ClosesGivePair(cs);
        SpliceKeepsCloses(cs, Scan(cs).open, Scan(cs).close);
        MatchLevelEnds(Splice(cs, Scan(cs).open, Scan(cs).close));
      } else if Scan(cs).PairAt? {
        var s := Splice(cs, Scan(cs).open, Scan(cs).close);
        MatchLevelEnds(s);
        if EveryOpenCloses(s) {
          SpliceNeedsCloses(cs, Scan(cs).open, Scan(cs).close);
        }
      }
    }
  }

  /** Where the source's loop ends, the intended loop gives the same children. */
  lemma {:induction false} MatchLevelAgrees(cs: seq<Node>)
    requires MatchLevel(cs).Ok?
    ensures MatchLevel(cs).value == PairLevel(cs)
    decreases |cs|
  {
    ScanSpec(cs);
    if HasOpen(cs) {
      MatchLevelAgrees(Splice(cs, Scan(cs).open, Scan(cs).close));
    }
  }

  /** A lone open bracket makes the source's loop spin; the intended loop keeps it. */
  lemma LoneOpenDiverges()
    ensures MatchLevel([Leaf("(")]) == Diverges
    ensures PairLevel([Leaf("(")]) == [Leaf("(")]
  {
    var cs := [Leaf("(")];
    assert IsOpen(cs[0]);
    assert ScanFrom(cs, 1, 0) == NoPair;
  }

  /** After the intended loop no open bracket is followed by a close bracket. */
  lemma {:induction false} PairLevelDone(cs: seq<Node>)
    ensures NoPairBefore(PairLevel(cs), |PairLevel(cs)|)
    decreases |cs|
  {
    ScanSpec(cs);
    if Scan(cs).PairAt? {
      PairLevelDone(Splice(cs, Scan(cs).open, Scan(cs).close));
    }
  }

  /** A fence made from a pair: its value is the open then the close bracket, and the
      nodes it wraps hold no bracket. */
  lemma FenceOfPair(cs: seq<Node>, j: nat, i: nat)
    requires Paired(cs, j, i)
    ensures FenceOf(cs, j, i).value == cs[j].value + cs[i].value
    ensures |FenceOf(cs, j, i).value| == 2 && FenceOf(cs, j, i).value[0..1] == cs[j].value
    ensures forall k :: 0 <= k < |FenceOf(cs, j, i).children| ==>
      !IsOpen(FenceOf(cs, j, i).children[k]) && !IsClose(FenceOf(cs, j, i).children[k])
  {
    var v := cs[j].value + cs[i].value;
    assert |cs[j].value| == 1 && |cs[i].value| == 1;
    assert v[0..1] == cs[j].value;
    var mid := cs[j + 1..i];
    forall k | 0 <= k < |mid|
      ensures !IsOpen(mid[k]) && !IsClose(mid[k])
    {
      assert mid[k] == cs[j + 1 + k];
    }
  }

  /** Each pairing takes away exactly one open and one close bracket. */
  lemma SpliceCounts(cs: seq<Node>, j: nat, i: nat)
    requires Paired(cs, j, i)
    ensures Opens(Splice(cs, j, i)) == Opens(cs) - 1
    ensures Closes(Splice(cs, j, i)) == Closes(cs) - 1
  {
    PairParts(cs, j, i, 0);
    assert cs[0..] == cs && Splice(cs, j, i)[0..] == Splice(cs, j, i);
  }

  /** The fence of a pair reads as its open bracket, the wrapped nodes and its close
      bracket. */
  lemma FenceReading(cs: seq<Node>, j: nat, i: nat)
    requires Paired(cs, j, i)
    ensures Reading(FenceOf(cs, j, i)) == Reading(cs[j]) + ReadingList(cs[j + 1..i]) + Reading(cs[i])
  {
    var v := cs[j].value + cs[i].value;
    assert |cs[j].value| == 1 && |cs[i].value| == 1;
    assert CharAt(v, 0) == cs[j].value && CharAt(v, 1) == cs[i].value;
  }

  /** The list around a pair, in five parts. */
  lemma SpliceParts(cs: seq<Node>, j: nat, i: nat)
    requires j < i < |cs|
    ensures cs == cs[..j] + [cs[j]] + cs[j + 1..]
    ensures cs[j + 1..] == cs[j + 1..i] + [cs[i]] + cs[i + 1..]
    ensures Splice(cs, j, i) == cs[..j] + [FenceOf(cs, j, i)] + cs[i + 1..]
  {
  }

  /** A pairing reads the same. */
  lemma SpliceReading(cs: seq<Node>, j: nat, i: nat)
    requires Paired(cs, j, i)
    ensures ReadingList(Splice(cs, j, i)) == ReadingList(cs)
  {
    var before, mid, after, rest := cs[..j], cs[j + 1..i], cs[i + 1..], cs[j + 1..];
    var f := FenceOf(cs, j, i);
    SpliceParts(cs, j, i);
    FenceReading(cs, j, i);
    AroundNode(before, cs[j], rest);
    AroundNode(mid, cs[i], after);
    AroundNode(before, f, after);
    Regroup(ReadingList(before), Reading(cs[j]), ReadingList(mid), Reading(cs[i]), ReadingList(after));
  }

  lemma Regroup(b: string, o: string, m: string, c: string, a: string)
    ensures (b + ((o + m) + c)) + a == (b + o) + ((m + c) + a)
  {
  }

  /** A pairing takes away at least one node. */
  lemma SpliceSize(cs: seq<Node>, j: nat, i: nat)
    requires j < i < |cs|
    ensures SizeList(Splice(cs, j, i)) < SizeList(cs)
  {
    var before, mid, after, rest := cs[..j], cs[j + 1..i], cs[i + 1..], cs[j + 1..];
    var f := FenceOf(cs, j, i);
    SpliceParts(cs, j, i);
    AroundNode(before, cs[j], rest);
    AroundNode(mid, cs[i], after);
    AroundNode(before, f, after);
    assert Size(f) == 1 + SizeList(mid);
  }

  /** The intended loop reads the same and does not grow the tree. */
  lemma {:induction false} PairLevelReading(cs: seq<Node>)
    ensures ReadingList(PairLevel(cs)) == ReadingList(cs)
    ensures SizeList(PairLevel(cs)) <= SizeList(cs)
    decreases |cs|
  {
    ScanSpec(cs);
    if Scan(cs).PairAt? {
      SpliceReading(cs, Scan(cs).open, Scan(cs).close);
      SpliceSize(cs, Scan(cs).open, Scan(cs).close);
      PairLevelReading(Splice(cs, Scan(cs).open, Scan(cs).close));
    }
  }

  function PairedChildren(n: Node): (cs: seq<Node>)
    ensures SizeList(cs) <= SizeList(n.children)
  {
    PairLevelReading(n.children);
    PairLevel(n.children)
  }

  /** `MatchFences` on a whole tree: the node's children are paired, then each child is
      processed (the new fences included). */
  function Matched(n: Node): (r: Node)
    ensures r.kind == n.kind && r.value == n.value
    decreases Size(n)
  {
    var cs := PairedChildren(n);
    AllBelow(cs);
    Node(n.kind, n.value, seq(|cs|, i requires 0 <= i < |cs| => Matched(cs[i])))
  }

  /** The tree reads the same before and after. */
  lemma {:induction false} MatchedReading(n: Node)
    ensures Reading(Matched(n)) == Reading(n)
    decreases Size(n)
  {
    var cs := PairedChildren(n);
    AllBelow(cs);
    var r := Matched(n);
    forall i | 0 <= i < |cs|
      ensures Reading(r.children[i]) == Reading(cs[i])
    {
      MatchedReading(cs[i]);
    }
    ReadingListPointwise(r.children, cs);
    PairLevelReading(n.children);
  }

  /** The source's loop ends at this node and at every node below it. */
  predicate FencesEnd(n: Node)
    decreases Size(n)
  {
    var cs := PairedChildren(n);
    AllBelow(cs);
    EveryOpenCloses(n.children) && forall i :: 0 <= i < |cs| ==> FencesEnd(cs[i])
  }

  /** `MatchFences` on a whole tree, as written: it ends exactly when every node's open
      brackets are closed, and then gives the tree of the intended loop. */
  method MatchFences(n: Node) returns (r: Outcome<Node>)
    ensures !r.Throws?
    ensures r.Ok? <==> FencesEnd(n)
    ensures r.Ok? ==> r.value == Matched(n)
    decreases Size(n)
  {
    var level := MatchFencesLevel(n.children);
    MatchLevelEnds(n.children);
    if !level.Ok? {
      return Diverges;
    }
    MatchLevelAgrees(n.children);
    var cs := level.value;
    assert cs == PairedChildren(n);
    AllBelow(cs);
    var out: seq<Node> := [];
    for i := 0 to |cs|
      invariant |out| == i
      invariant forall k :: 0 <= k < i ==> out[k] == Matched(cs[k]) && FencesEnd(cs[k])
    {
      var c := MatchFences(cs[i]);
      if !c.Ok? {
        return Diverges;
      }
      out := out + [c.value];
    }
    r := Ok(Node(n.kind, n.value, out));
  }

  /** `( a + b )` becomes one fence `()` around `a + b`. */
  lemma ParenthesisedSum()
    ensures MatchLevel([Leaf("("), Leaf("a"), Leaf("+"), Leaf("b"), Leaf(")")])
      == Ok([Node(Fence, "()", [Leaf("a"), Leaf("+"), Leaf("b")])])
  {
    var cs := [Leaf("("), Leaf("a"), Leaf("+"), Leaf("b"), Leaf(")")];
    assert IsOpen(cs[0]) && IsClose(cs[4]);
    assert !IsOpen(cs[1]) && !IsClose(cs[1]) && !IsOpen(cs[2]) && !IsClose(cs[2]) && !IsOpen(cs[3]) && !IsClose(cs[3]);
    assert ScanFrom(cs, 4, 0) == PairAt(0, 4);
    assert ScanFrom(cs, 3, 0) == PairAt(0, 4);
    assert ScanFrom(cs, 2, 0) == PairAt(0, 4);
    assert ScanFrom(cs, 1, 0) == PairAt(0, 4);
    assert Scan(cs) == PairAt(0, 4);
    var f := Node(Fence, "()", [Leaf("a"), Leaf("+"), Leaf("b")]);
    assert cs[1..4] == [Leaf("a"), Leaf("+"), Leaf("b")];
    assert cs[0].value + cs[4].value == "()";
    assert FenceOf(cs, 0, 4) == f;
    assert cs[..0] == [] && cs[5..] == [];
    assert Splice(cs, 0, 4) == [f];
    assert !IsOpen(f);
    assert !HasOpen([f]);
  }
}
