/** The text tokenizer at the bottom of `GetTreeFromElement`: the sticky regular expression
    `\s*([0-9,\.]+|\pL+|[pseudo-scripts]+|[^\s])\s*` of the Wikipedia revisions
    (content-script.js:76-83) and the global `([0-9]+|(?:[A-Z]|[a-z])+|[^\s])\s*` of the
    user script (inlinemath.user.js:52-57), and the text node or row the tokens become. */
module Tokenizer {
  import opened Chars
  import opened Strings
  import opened ExprTree

  /** Which of the two regular expressions splits the text. */
  datatype Lexicon = Wiki | Ascii

  /** The alternative of the regular expression a token was matched by. */
  datatype TokenClass = Number | Word | Marks | Single

  /** The first alternative that matches at a character: the alternatives are tried in
      order, so a character in two classes belongs to the earlier one. */
  function ClassOf(c: char, lex: Lexicon): TokenClass
  {
    match lex
    case Wiki =>
      if IsNumeric(c) then Number
      else if IsLetter(c) then Word
      else if IsPseudoScript(c) then Marks
      else Single
    case Ascii =>
      if IsAsciiDigit(c) then Number
      else if IsAsciiLetter(c) then Word
      else Single
  }

  /** The characters a run of one class may continue with. */
  predicate InClass(c: char, cls: TokenClass, lex: Lexicon)
  {
    match cls
    case Number => if lex == Wiki then IsNumeric(c) else IsAsciiDigit(c)
    case Word => if lex == Wiki then IsLetter(c) else IsAsciiLetter(c)
    case Marks => lex == Wiki && IsPseudoScript(c)
    case Single => false
  }

  /** The length of the longest prefix of `s` whose characters all belong to `cls`. */
  function RunLength(s: string, cls: TokenClass, lex: Lexicon): (n: nat)
    requires s != [] && InClass(s[0], cls, lex)
    ensures 1 <= n <= |s|
    ensures forall k :: 0 <= k < n ==> InClass(s[k], cls, lex)
    ensures n < |s| ==> !InClass(s[n], cls, lex)
  {
    if |s| == 1 || !InClass(s[1], cls, lex) then 1 else 1 + RunLength(s[1..], cls, lex)
  }

  /** The length of the token matched at the head of `s` (greedy within the first
      alternative that matches; the last alternative takes one character). */
  function TokenLength(s: string, lex: Lexicon): (n: nat)
    requires s != [] && !IsSpace(s[0])
    ensures 1 <= n <= |s|
  {
    var cls := ClassOf(s[0], lex);
    if cls == Single then 1 else RunLength(s, cls, lex)
  }

  /** A token is the longest run of the class of its first character, or that one
      character when no run alternative matches it. */
  lemma TokenIsLongestRun(s: string, lex: Lexicon)
    requires s != [] && !IsSpace(s[0])
    ensures ClassOf(s[0], lex) == Single ==> TokenLength(s, lex) == 1
    ensures ClassOf(s[0], lex) != Single ==>
      (forall k :: 0 <= k < TokenLength(s, lex) ==> InClass(s[k], ClassOf(s[0], lex), lex))
      && (TokenLength(s, lex) < |s| ==> !InClass(s[TokenLength(s, lex)], ClassOf(s[0], lex), lex))
  {
  }

  /** The tokens of a text: white space separates tokens and is dropped. */
  function Tokens(s: string, lex: Lexicon): seq<string>
    decreases |s|
  {
    if s == [] then []
    else if IsSpace(s[0]) then Tokens(s[1..], lex)
    else
      var n := TokenLength(s, lex);
      [s[..n]] + Tokens(s[n..], lex)
  }

  /** One match of the loop, at position `pos` of the text. */
  lemma TokensAt(text: string, pos: nat, lex: Lexicon)
    requires pos < |text|
    ensures IsSpace(text[pos]) ==> Tokens(text[pos..], lex) == Tokens(text[pos + 1..], lex)
    ensures !IsSpace(text[pos]) ==>
      var n := TokenLength(text[pos..], lex);
      pos + n <= |text| && Tokens(text[pos..], lex) == [text[pos..pos + n]] + Tokens(text[pos + n..], lex)
  {
    var s := text[pos..];
    if IsSpace(text[pos]) {
      assert s[1..] == text[pos + 1..];
    } else {
      var n := TokenLength(s, lex);
      assert s[..n] == text[pos..pos + n];
      assert s[n..] == text[pos + n..];
    }
  }

  /** `\s*`: the white space from `pos` on, which contributes no token. */
  method SkipSpaces(text: string, pos: nat, lex: Lexicon) returns (p: nat)
    requires pos <= |text|
    ensures pos <= p <= |text| && (p < |text| ==> !IsSpace(text[p]))
    ensures forall k :: pos <= k < p ==> IsSpace(text[k])
    ensures Tokens(text[pos..], lex) == Tokens(text[p..], lex)
  {
    p := pos;
    while p < |text| && IsSpace(text[p])
      invariant pos <= p <= |text|
      invariant forall k :: pos <= k < p ==> IsSpace(text[k])
      invariant Tokens(text[pos..], lex) == Tokens(text[p..], lex)
    {
      TokensAt(text, p, lex);
      p := p + 1;
    }
  }

  /** One sticky match of the pattern at `pos`: the white space before the token, the
      token, and the white space after it. `found` is false when only white space is left
      (the match fails); otherwise `next` is where the match ended. */
  method ExecToken(text: string, pos: nat, lex: Lexicon) returns (found: bool, token: string, next: nat)
    requires pos <= |text|
    ensures found ==> pos < next <= |text| && Tokens(text[pos..], lex) == [token] + Tokens(text[next..], lex)
    ensures !found ==> Tokens(text[pos..], lex) == []
  {
    var p := SkipSpaces(text, pos, lex);
    if p == |text| {
      assert text[p..] == [];
      return false, [], p;
    }
    var n := TokenLength(text[p..], lex);
    token := text[p..p + n];
    next := SkipSpaces(text, p + n, lex);
    found := true;
    MatchFound(text, pos, p, next, lex);
  }

  /** A match that found a token at `p`, after the white space from `pos`, and ended at
      `next`, after the white space that follows the token. */
  lemma MatchFound(text: string, pos: nat, p: nat, next: nat, lex: Lexicon)
    requires pos <= p < |text| && !IsSpace(text[p])
    requires Tokens(text[pos..], lex) == Tokens(text[p..], lex)
    requires var n := TokenLength(text[p..], lex);
      p + n <= next <= |text| && Tokens(text[p + n..], lex) == Tokens(text[next..], lex)
    ensures var n := TokenLength(text[p..], lex);
      Tokens(text[pos..], lex) == [text[p..p + n]] + Tokens(text[next..], lex)
  {
    TokensAt(text, p, lex);
  }

  /** The matching loop: the next match starts where the previous one ended, and the loop
      ends when the match fails. */
  method Tokenize(text: string, lex: Lexicon) returns (tokens: seq<string>)
    ensures tokens == Tokens(text, lex)
  {
    tokens := [];
    var pos := 0;
    assert text[pos..] == text;
    var found, token, next := ExecToken(text, pos, lex);
    while found
      invariant pos <= |text|
      invariant found ==> pos < next <= |text| && Tokens(text[pos..], lex) == [token] + Tokens(text[next..], lex)
      invariant !found ==> Tokens(text[pos..], lex) == []
      invariant tokens + Tokens(text[pos..], lex) == Tokens(text, lex)
      decreases |text| - pos
    {
      AppendAssoc(tokens, [token], Tokens(text[next..], lex));
      tokens := tokens + [token];
      pos := next;
      found, token, next := ExecToken(text, pos, lex);
    }
  }

  lemma AppendAssoc(a: seq<string>, b: seq<string>, c: seq<string>)
    ensures (a + b) + c == a + (b + c)
  {
  }

  /** The tokens, put back together, are the text without its white space: nothing is
      lost, duplicated or reordered. */
  lemma {:induction false} TokensCover(s: string, lex: Lexicon)
    ensures Concat(Tokens(s, lex)) == RemoveSpaces(s)
    decreases |s|
  {
    if s != [] {
      if IsSpace(s[0]) {
        TokensCover(s[1..], lex);
      } else {
        var n := TokenLength(s, lex);
        TokensCover(s[n..], lex);
        assert s == s[..n] + s[n..];
        RemoveSpacesAppend(s[..n], s[n..]);
        NoSpaceInToken(s, lex);
        NoSpacesKept(s[..n]);
      }
    }
  }

  lemma NoSpaceInToken(s: string, lex: Lexicon)
    requires s != [] && !IsSpace(s[0])
    ensures forall k :: 0 <= k < TokenLength(s, lex) ==> !IsSpace(s[k])
  {
    var n := TokenLength(s, lex);
    TokenIsLongestRun(s, lex);
    forall k | 0 <= k < n
      ensures !IsSpace(s[k])
    {
      if ClassOf(s[0], lex) != Single {
        ClassesAreDisjoint(s[k]);
      }
    }
  }

  lemma {:induction false} NoSpacesKept(s: string)
    requires forall k :: 0 <= k < |s| ==> !IsSpace(s[k])
    ensures RemoveSpaces(s) == s
  {
    if s != [] {
      NoSpacesKept(s[1..]);
    }
  }

  /** Every token is a non-empty stretch of non-space characters, and is either a single
      character or a run of one class. */
  lemma {:induction false} TokensWellFormed(s: string, lex: Lexicon)
    ensures forall t :: t in Tokens(s, lex) ==>
      t != "" && (forall k :: 0 <= k < |t| ==> !IsSpace(t[k]))
      && (|t| == 1 || forall k :: 0 <= k < |t| ==> InClass(t[k], ClassOf(t[0], lex), lex))
    decreases |s|
  {
    if s != [] {
      if IsSpace(s[0]) {
        TokensWellFormed(s[1..], lex);
      } else {
        var n := TokenLength(s, lex);
        TokensWellFormed(s[n..], lex);
        NoSpaceInToken(s, lex);
        TokenIsLongestRun(s, lex);
      }
    }
  }

  /** No token is empty. */
  lemma TokensNonEmpty(s: string, lex: Lexicon)
    ensures forall i :: 0 <= i < |Tokens(s, lex)| ==> Tokens(s, lex)[i] != ""
  {
    TokensWellFormed(s, lex);
    var ts := Tokens(s, lex);
    forall i | 0 <= i < |ts|
      ensures ts[i] != ""
    {
      assert ts[i] in ts;
    }
  }

  /** The loop produces no token exactly when the text is all white space. */
  lemma NoTokensIffBlank(s: string, lex: Lexicon)
    ensures Tokens(s, lex) == [] <==> forall k :: 0 <= k < |s| ==> IsSpace(s[k])
  {
    TokensCover(s, lex);
    RemoveSpacesEmpty(s);
    TokensWellFormed(s, lex);
    if Tokens(s, lex) != [] {
      var t := Tokens(s, lex);
      assert t == [t[0]] + t[1..];
      ConcatAppend([t[0]], t[1..]);
      assert Concat([t[0]]) == t[0];
      assert t[0] in t;
    }
  }

  /** The first match at the head of a text that starts with a token of length `n`. */
  lemma TokensHead(s: string, n: nat, lex: Lexicon)
    requires s != [] && !IsSpace(s[0]) && TokenLength(s, lex) == n
    ensures Tokens(s, lex) == [s[..n]] + Tokens(s[n..], lex)
  {
  }

  /** The revisions differ on numbers: the Wikipedia tokenizer keeps a decimal number
      whole, the user script splits it at the point. */
  lemma WikiKeepsDecimal()
    ensures Tokens("12.5", Wiki) == ["12.5"]
  {
    var s := "12.5";
    assert ClassOf('1', Wiki) == Number;
    assert TokenLength(s, Wiki) == 4;
    TokensHead(s, 4, Wiki);
    assert s[..4] == s && s[4..] == [];
  }

  lemma AsciiSplitsDecimal()
    ensures Tokens("12.5", Ascii) == ["12", ".", "5"]
  {
    var s := "12.5";
    assert ClassOf('1', Ascii) == Number && !IsAsciiDigit('.');
    assert TokenLength(s, Ascii) == 2;
    TokensHead(s, 2, Ascii);
    assert s[..2] == "12" && s[2..] == ".5";
    assert ClassOf('.', Ascii) == Single;
    TokensHead(".5", 1, Ascii);
    assert ".5"[..1] == "." && ".5"[1..] == "5";
    TokensHead("5", 1, Ascii);
    assert "5"[..1] == "5" && "5"[1..] == [];
  }

  /** Letters and marks: `f′ x` is a word, the prime, and another word. */
  lemma PrimeAfterLetter()
    ensures Tokens("f\U{2032} x", Wiki) == ["f", "\U{2032}", "x"]
  {
    var s := "f\U{2032} x";
    assert ClassOf('f', Wiki) == Word && !IsLetter('\U{2032}');
    assert TokenLength(s, Wiki) == 1;
    TokensHead(s, 1, Wiki);
    assert s[..1] == "f" && s[1..] == "\U{2032} x";
    PrimeThenLetter();
  }

  lemma PrimeThenLetter()
    ensures Tokens("\U{2032} x", Wiki) == ["\U{2032}", "x"]
  {
    var t := "\U{2032} x";
    assert ClassOf('\U{2032}', Wiki) == Marks && !IsPseudoScript(' ');
    assert TokenLength(t, Wiki) == 1;
    TokensHead(t, 1, Wiki);
    assert t[..1] == "\U{2032}" && t[1..] == " x";
    assert " x"[1..] == "x";
    TokensHead("x", 1, Wiki);
    assert "x"[..1] == "x" && "x"[1..] == [];
  }

  /** A token becomes a text node; in the Wikipedia revisions a token holding one of the
      pseudo-script marks is set as a superscript (content-script.js:85-99). */
  function TokenNode(t: string, lex: Lexicon): (r: Node)
    ensures Reading(r) == t
    ensures TextIsLeaf(r)
    ensures r.kind == Sup <==> lex == Wiki && HasPseudoScript(t)
  {
    if lex == Wiki && HasPseudoScript(t) then
      assert ReadingList([Leaf(t)]) == Reading(Leaf(t)) + ReadingList([]);
      Node(Sup, "", [Leaf(t)])
    else Leaf(t)
  }

  function TokenNodes(ts: seq<string>, lex: Lexicon): seq<Node>
  {
    seq(|ts|, i requires 0 <= i < |ts| => TokenNode(ts[i], lex))
  }

  /** The tree of a text: a single token stands alone, otherwise (no token, or several)
      the tokens form a row. */
  function TextTree(text: string, lex: Lexicon): Node
  {
    var ts := Tokens(text, lex);
    if |ts| == 1 then TokenNode(ts[0], lex) else Node(Row, "", TokenNodes(ts, lex))
  }

  lemma {:induction false} ReadingTokenNodes(ts: seq<string>, lex: Lexicon)
    ensures ReadingList(TokenNodes(ts, lex)) == Concat(ts)
  {
    if ts != [] {
      ReadingTokenNodes(ts[1..], lex);
      assert TokenNodes(ts, lex)[1..] == TokenNodes(ts[1..], lex);
    }
  }

  /** The tree of a text reads as the text without its white space. */
  lemma TextTreeReading(text: string, lex: Lexicon)
    ensures Reading(TextTree(text, lex)) == RemoveSpaces(text)
    ensures TextIsLeaf(TextTree(text, lex))
  {
    var ts := Tokens(text, lex);
    TokensCover(text, lex);
    if |ts| == 1 {
      assert Concat(ts) == ts[0] + Concat([]);
    } else {
      ReadingTokenNodes(ts, lex);
    }
  }

  /** A text of white space only gives an empty row. */
  lemma BlankTextTree(text: string, lex: Lexicon)
    requires forall k :: 0 <= k < |text| ==> IsSpace(text[k])
    ensures TextTree(text, lex) == EmptyRow
  {
    NoTokensIffBlank(text, lex);
  }

  /** The tree of a text, by the number of tokens: none gives an empty row, one gives that
      token's node unwrapped, several give the row of their nodes in order. */
  lemma TextTreeShape(text: string, lex: Lexicon)
    ensures var ts := Tokens(text, lex);
      var r := TextTree(text, lex);
      (|ts| == 0 ==> r == EmptyRow)
      && (|ts| == 1 ==> r == TokenNode(ts[0], lex))
      && (|ts| != 1 ==> (r.kind == Row && |r.children| == |ts|
          && forall i :: 0 <= i < |ts| ==> r.children[i] == TokenNode(ts[i], lex)))
  {
  }

  /** `x+1` is a row of three text nodes. */
  lemma SumOfLetterAndDigit()
    ensures TextTree("x+1", Wiki) == Node(Row, "", [Leaf("x"), Leaf("+"), Leaf("1")])
  {
    SumTokens();
    PlainSigns();
    ThreeTokenRow("x+1", "x", "+", "1");
  }

  lemma PlainSigns()
    ensures !IsPseudoScript('x') && !IsPseudoScript('+') && !IsPseudoScript('1')
  {
  }

  lemma ThreeTokenRow(s: string, a: string, b: string, c: string)
    requires Tokens(s, Wiki) == [a, b, c]
    requires |a| == 1 && |b| == 1 && |c| == 1
    requires !IsPseudoScript(a[0]) && !IsPseudoScript(b[0]) && !IsPseudoScript(c[0])
    ensures TextTree(s, Wiki) == Node(Row, "", [Leaf(a), Leaf(b), Leaf(c)])
  {
    var ts := [a, b, c];
    NoMarksIn(a);
    NoMarksIn(b);
    NoMarksIn(c);
    var ns := TokenNodes(ts, Wiki);
    assert ns == [Leaf(a), Leaf(b), Leaf(c)];
  }

  lemma SumTokens()
    ensures Tokens("x+1", Wiki) == ["x", "+", "1"]
  {
    var s := "x+1";
    assert ClassOf('x', Wiki) == Word && !IsLetter('+');
    assert TokenLength(s, Wiki) == 1;
    TokensHead(s, 1, Wiki);
    assert s[..1] == "x" && s[1..] == "+1";
    assert ClassOf('+', Wiki) == Single;
    TokensHead("+1", 1, Wiki);
    assert "+1"[..1] == "+" && "+1"[1..] == "1";
    assert ClassOf('1', Wiki) == Number;
    TokensHead("1", 1, Wiki);
    assert "1"[..1] == "1" && "1"[1..] == [];
  }

  lemma NoMarksIn(t: string)
    requires |t| == 1 && !IsPseudoScript(t[0])
    ensures TokenNode(t, Wiki) == Leaf(t)
  {
  }
}
