/** The input: the page's markup fragment, read only. An element has a tag name (upper
    case, as `nodeName` gives it), its `class` and `style` attributes (an absent attribute
    reads as ""), and its child nodes; a text node has its character data. */
module Fragments {
  import opened Chars
  import opened Strings

  datatype Fragment =
    | Element(name: string, className: string, style: string, children: seq<Fragment>)
    | TextRun(data: string)

  /** `node.nodeName` */
  function NodeName(f: Fragment): string
  {
    if f.Element? then f.name else "#text"
  }

  /** `node.childNodes`: a text node has none. */
  function Kids(f: Fragment): seq<Fragment>
  {
    if f.Element? then f.children else []
  }

  /** `node.data` is defined only on a text node (`undefined` on an element). */
  predicate HasData(f: Fragment, s: string)
  {
    f.TextRun? && f.data == s
  }

  /** `node.textContent`: the character data of every descendant text node, in document order. */
  function TextContent(f: Fragment): string
  {
    match f
    case TextRun(d) => d
    case Element(_, _, _, cs) => Concat(seq(|cs|, i requires 0 <= i < |cs| => TextContent(cs[i])))
  }

  /** The length of the class name at the head of `s`. */
  function WordLength(s: string): (n: nat)
    requires s != [] && !IsClassSeparator(s[0])
    ensures 1 <= n <= |s|
    ensures forall k :: 0 <= k < n ==> !IsClassSeparator(s[k])
    ensures n < |s| ==> IsClassSeparator(s[n])
  {
    if |s| == 1 || IsClassSeparator(s[1]) then 1 else 1 + WordLength(s[1..])
  }

  /** `element.classList`: the class attribute split at white space. */
  function ClassList(s: string): seq<string>
    decreases |s|
  {
    if s == [] then []
    else if IsClassSeparator(s[0]) then ClassList(s[1..])
    else
      var n := WordLength(s);
      [s[..n]] + ClassList(s[n..])
  }

  /** Every class name is a non-empty stretch without separators. */
  lemma {:induction false} ClassListTokens(s: string)
    ensures forall t :: t in ClassList(s) ==> t != "" && forall k :: 0 <= k < |t| ==> !IsClassSeparator(t[k])
    decreases |s|
  {
    if s != [] {
      if IsClassSeparator(s[0]) {
        ClassListTokens(s[1..]);
      } else {
        ClassListTokens(s[WordLength(s)..]);
      }
    }
  }

  /** `element.classList.contains(c)` */
  predicate HasClass(f: Fragment, c: string)
  {
    f.Element? && c in ClassList(f.className)
  }

  /** A class attribute that is exactly one class name followed by another holds both. */
  lemma {:induction false} TwoClasses(a: string, b: string)
    requires a != "" && b != ""
    requires forall k :: 0 <= k < |a| ==> !IsClassSeparator(a[k])
    requires forall k :: 0 <= k < |b| ==> !IsClassSeparator(b[k])
    ensures ClassList(a + " " + b) == [a, b]
  {
    var s := a + " " + b;
    WordLengthOfWord(a, " " + b);
    assert s[..|a|] == a;
    assert s[|a|..] == " " + b;
    assert (" " + b)[1..] == b;
    WordLengthOfWord(b, "");
    assert b + "" == b;
    assert b[..|b|] == b && b[|b|..] == "";
    assert ClassList(b) == [b] + ClassList("");
    assert ClassList(" " + b) == ClassList(b);
    assert ClassList(s) == [a] + ClassList(" " + b);
  }

  lemma {:induction false} WordLengthOfWord(a: string, rest: string)
    requires a != ""
    requires forall k :: 0 <= k < |a| ==> !IsClassSeparator(a[k])
    requires rest == "" || IsClassSeparator(rest[0])
    ensures WordLength(a + rest) == |a|
  {
    if |a| > 1 {
      assert (a + rest)[1..] == a[1..] + rest;
      WordLengthOfWord(a[1..], rest);
    }
  }
}
